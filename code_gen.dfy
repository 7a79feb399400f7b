/**
 * String helpers of the JavaScript code generator (`CommonCodeGenerator`).
 * The identifier texts the generator takes from its keyword tables and the
 * compile options are parameters; a syntax symbol's serial number is its
 * hexadecimal text.
 */
module CodeGen {
  import opened Wrappers

  /** The keyword-table entries the helpers below emit. */
  datatype Identifiers = Identifiers(
    varPrefix: string,      // prefix of variable names
    outArgPrefix: string,   // prefix of variable accessor (output argument) names
    funcPrefix: string,     // prefix of function names
    call: string,           // `Function.prototype.call`
    varFrame: string,       // the local holding the current variable frame
    pop: string,            // `Array.prototype.pop`
    splice: string,         // `Array.prototype.splice`
    length: string,         // `Array.prototype.length`
    newLine: string)

  /** The compile option the variable-frame helpers consult. */
  datatype CompileOption = CompileOption(addVarAccessorToVarStack: bool)

  /** A `java.lang.StringBuilder`: text that grows by appending. */
  class StringBuilder {
    var text: string

    constructor (init: string)
      ensures text == init
    {
      text := init;
    }

    method Append(s: string)
      modifies this
      ensures text == old(text) + s
    {
      text := text + s;
    }
  }

  // ---------------------------------------------------------------------
  // Generated names

  /** `genVarName`: the variable prefix followed by the symbol's serial number. */
  function GenVarName(ids: Identifiers, serial: string): (r: string)
    ensures |r| == |ids.varPrefix| + |serial|
    ensures r[..|ids.varPrefix|] == ids.varPrefix && r[|ids.varPrefix|..] == serial
  {
    ids.varPrefix + serial
  }

  /** `genVarAccessorName`: the accessor prefix followed by the symbol's serial number. */
  function GenVarAccessorName(ids: Identifiers, serial: string): (r: string)
    ensures |r| == |ids.outArgPrefix| + |serial|
    ensures r[..|ids.outArgPrefix|] == ids.outArgPrefix && r[|ids.outArgPrefix|..] == serial
  {
    ids.outArgPrefix + serial
  }

  /** `genFuncName`: the function prefix followed by the symbol's serial number. */
  function GenFuncName(ids: Identifiers, serial: string): (r: string)
    ensures |r| == |ids.funcPrefix| + |serial|
    ensures r[..|ids.funcPrefix|] == ids.funcPrefix && r[|ids.funcPrefix|..] == serial
  {
    ids.funcPrefix + serial
  }

  /** Distinct symbols get distinct variable, accessor and function names. */
  lemma GeneratedNamesInjective(ids: Identifiers, s1: string, s2: string)
    requires s1 != s2
    ensures GenVarName(ids, s1) != GenVarName(ids, s2)
    ensures GenVarAccessorName(ids, s1) != GenVarAccessorName(ids, s2)
    ensures GenFuncName(ids, s1) != GenFuncName(ids, s2)
  {
    assert GenVarName(ids, s1)[|ids.varPrefix|..] == s1;
    assert GenVarAccessorName(ids, s1)[|ids.outArgPrefix|..] == s1;
    assert GenFuncName(ids, s1)[|ids.funcPrefix|..] == s1;
  }

  // ---------------------------------------------------------------------
  // Calls and property accesses

  /** The arguments separated by `sep`. */
  function Join(xs: seq<string>, sep: char): string {
    if |xs| == 0 then ""
    else if |xs| == 1 then xs[0]
    else xs[0] + [sep] + Join(xs[1..], sep)
  }

  /** A text cut at every occurrence of `sep` (the reading of an argument list). */
  function Split(s: string, sep: char): (r: seq<string>)
    ensures |r| >= 1
  {
    if |s| == 0 then [""]
    else
      var rest := Split(s[1..], sep);
      if s[0] == sep then [""] + rest else [[s[0]] + rest[0]] + rest[1..]
  }

  lemma {:induction false} SplitNoSep(a: string, sep: char, b: string)
    requires sep !in a
    ensures Split(a, sep) == [a]
    ensures Split(a + [sep] + b, sep) == [a] + Split(b, sep)
  {
    if |a| > 0 {
      assert a[1..] + [sep] + b == (a + [sep] + b)[1..];
      SplitNoSep(a[1..], sep, b);
      assert [a[0]] + a[1..] == a;
    } else {
      assert (a + [sep] + b)[1..] == b;
    }
  }

  /** Reading back a joined argument list gives the arguments, as long as none contains the separator. */
  lemma {:induction false} SplitJoin(xs: seq<string>, sep: char)
    requires |xs| >= 1
    requires forall i :: 0 <= i < |xs| ==> sep !in xs[i]
    ensures Split(Join(xs, sep), sep) == xs
  {
    if |xs| == 1 {
      SplitNoSep(xs[0], sep, "");
    } else {
      SplitJoin(xs[1..], sep);
      SplitNoSep(xs[0], sep, Join(xs[1..], sep));
    }
  }

  /** `genFuncCall`: `funcName(arg0,arg1,...)`, built by appending. */
  method GenFuncCall(funcName: string, argNames: seq<string>) returns (r: string)
    ensures r == funcName + "(" + Join(argNames, ',') + ")"
    ensures |argNames| == 0 ==> r == funcName + "()"
  {
    var code := new StringBuilder(funcName);
    code.Append("(");
    var i := 0;
    while i < |argNames| - 1
      invariant 0 <= i <= if |argNames| == 0 then 0 else |argNames| - 1
      invariant code.text + Join(argNames[i..], ',') == funcName + "(" + Join(argNames, ',')
    {
      assert argNames[i..][1..] == argNames[i + 1..];
      code.Append(argNames[i]);
      code.Append(",");
      i := i + 1;
    }
    if |argNames| == 0 {
      code.Append(")");
    } else {
      assert argNames[i..] == [argNames[|argNames| - 1]];
      code.Append(argNames[|argNames| - 1]);
      code.Append(")");
    }
    return code.text;
  }

  /** `root.p1.p2...`. */
  function Dotted(root: string, props: seq<string>): string
    decreases |props|
  {
    if |props| == 0 then root else Dotted(root + "." + props[0], props[1..])
  }

  /** `genPropertyAccess`: appends `.prop` for every property in order. */
  method GenPropertyAccess(root: string, props: seq<string>) returns (r: string)
    ensures r == Dotted(root, props)
  {
    var code := new StringBuilder(root);
    for i := 0 to |props|
      invariant Dotted(code.text, props[i..]) == Dotted(root, props)
    {
      assert props[i..][1..] == props[i + 1..];
      code.Append(".");
      code.Append(props[i]);
    }
    return code.text;
  }

  /** Accessing properties in two steps is accessing them all at once, and the root comes first. */
  lemma {:induction false} DottedAppend(root: string, p: seq<string>, q: seq<string>)
    decreases |p|
    ensures Dotted(Dotted(root, p), q) == Dotted(root, p + q)
    ensures |Dotted(root, p)| >= |root| && Dotted(root, p)[..|root|] == root
  {
    if |p| > 0 {
      assert (p + q)[1..] == p[1..] + q;
      DottedAppend(root + "." + p[0], p[1..], q);
      assert (root + "." + p[0])[..|root|] == root;
    } else {
      assert p + q == q;
    }
  }

  /** `genFuncPrototypeCall`: `funcName.call(thisObj,arg0,...)` with the receiver as first argument. */
  method GenFuncPrototypeCall(ids: Identifiers, funcName: string, thisObj: string, args: seq<string>) returns (r: string)
    ensures r == funcName + "." + ids.call + "(" + Join([thisObj] + args, ',') + ")"
  {
    var argList := [thisObj] + args;
    var funcCall := GenPropertyAccess(funcName, [ids.call]);
    assert Dotted(funcName, [ids.call]) == Dotted(funcName + "." + ids.call, []);
    r := GenFuncCall(funcCall, argList);
  }

  /** The receiver is the first argument of a prototype call, followed by the other arguments. */
  lemma PrototypeCallReceiverFirst(thisObj: string, args: seq<string>)
    ensures |args| == 0 ==> Join([thisObj] + args, ',') == thisObj
    ensures |args| > 0 ==> Join([thisObj] + args, ',') == thisObj + "," + Join(args, ',')
  {
    assert ([thisObj] + args)[1..] == args;
  }

  // ---------------------------------------------------------------------
  // Literals

  /** `String.replaceAll` for a one-character pattern: every `c` replaced by `rep`. */
  function ReplaceAll(s: string, c: char, rep: string): string {
    if |s| == 0 then "" else (if s[0] == c then rep else [s[0]]) + ReplaceAll(s[1..], c, rep)
  }

  /**
   * `toJsString` as written: backslashes, then single quotes, then line feeds
   * are escaped, and the text is quoted.  The literal holds no raw line feed,
   * but a raw carriage return exactly when the text does.
   */
  function ToJsString(str: string): (r: string)
    ensures |r| >= 2 && r[0] == '\'' && r[|r| - 1] == '\''
    ensures '\n' !in r[1..|r| - 1]
    ensures '\r' in r[1..|r| - 1] <==> '\r' in str
  {
    var s1 := ReplaceAll(str, '\\', "\\\\");
    var s2 := ReplaceAll(s1, '\'', "\\'");
    var body := ReplaceAll(s2, '\n', "\\n");
    ReplaceAllDrops(s2, '\n', "\\n");
    ReplaceAllKeeps(str, '\\', "\\\\", '\r');
    ReplaceAllKeeps(s1, '\'', "\\'", '\r');
    ReplaceAllKeeps(s2, '\n', "\\n", '\r');
    assert ("'" + body + "'")[1..|body| + 1] == body;
    "'" + body + "'"
  }

  /** Replacing `c` by a text without `c` leaves no `c`. */
  lemma {:induction false} ReplaceAllDrops(s: string, c: char, rep: string)
    requires c !in rep
    ensures c !in ReplaceAll(s, c, rep)
  {
    if |s| > 0 {
      ReplaceAllDrops(s[1..], c, rep);
    }
  }

  /** Replacing `c` by a text without `d` keeps exactly the `d` there were. */
  lemma {:induction false} ReplaceAllKeeps(s: string, c: char, rep: string, d: char)
    requires d != c && d !in rep
    ensures d in ReplaceAll(s, c, rep) <==> d in s
  {
    if |s| > 0 {
      ReplaceAllKeeps(s[1..], c, rep, d);
      assert s == [s[0]] + s[1..];
    }
  }

  /**
   * A JavaScript single-quoted string literal (section 12.9.4 of ECMA-262),
   * limited to the escapes `\\`, `\'` and `\n` and `\r`: `None` when the text is
   * not such a literal, otherwise the string it denotes.  An unescaped quote,
   * line feed or carriage return cannot occur inside the quotes.
   */
  function ParseJsString(lit: string): Option<string> {
    if |lit| >= 2 && lit[0] == '\'' && lit[|lit| - 1] == '\'' then Unescape(lit[1..|lit| - 1]) else None
  }

  /** The character an escape sequence `\c` stands for. */
  function EscapeValue(c: char): Option<char> {
    if c == '\\' then Some('\\')
    else if c == '\'' then Some('\'')
    else if c == 'n' then Some('\n')
    else if c == 'r' then Some('\r')
    else None
  }

  function Unescape(body: string): Option<string> {
    if |body| == 0 then Some("")
    else if body[0] == '\\' then
      if |body| < 2 || EscapeValue(body[1]).None? then None
      else Prepend(EscapeValue(body[1]).value, Unescape(body[2..]))
    else if body[0] == '\'' || body[0] == '\n' || body[0] == '\r' then None
    else Prepend(body[0], Unescape(body[1..]))
  }

  function Prepend(c: char, rest: Option<string>): Option<string> {
    if rest.Some? then Some([c] + rest.value) else None
  }

  lemma {:induction false} ReplaceAllConcat(a: string, b: string, c: char, rep: string)
    ensures ReplaceAll(a + b, c, rep) == ReplaceAll(a, c, rep) + ReplaceAll(b, c, rep)
  {
    if |a| > 0 {
      assert (a + b)[1..] == a[1..] + b;
      ReplaceAllConcat(a[1..], b, c, rep);
    } else {
      assert a + b == b;
    }
  }

  /** The text `ToJsString` puts between the quotes for one character. */
  function EscapedChar(c: char): string {
    if c == '\\' then "\\\\" else if c == '\'' then "\\'" else if c == '\n' then "\\n" else [c]
  }

  /** The text `ToJsStringFixed` puts between the quotes for one character. */
  function EscapedCharFixed(c: char): string {
    if c == '\r' then "\\r" else EscapedChar(c)
  }

  /** Reading one escaped character in front of more text. */
  lemma UnescapeStep(c: char, rest: string)
    ensures Unescape(EscapedCharFixed(c) + rest) == Prepend(c, Unescape(rest))
  {
    var e := EscapedCharFixed(c);
    if |e| == 2 {
      assert (e + rest)[2..] == rest;
    } else {
      assert (e + rest)[1..] == rest;
    }
  }

  /** The three passes of `ToJsString` leave every character escaped on its own. */
  lemma {:induction false} ReplacePassesEscapeEachChar(s: string)
    requires |s| > 0
    ensures ReplaceAll(ReplaceAll(ReplaceAll(s, '\\', "\\\\"), '\'', "\\'"), '\n', "\\n")
         == EscapedChar(s[0]) + ReplaceAll(ReplaceAll(ReplaceAll(s[1..], '\\', "\\\\"), '\'', "\\'"), '\n', "\\n")
  {
    var head := [s[0]];
    assert s == head + s[1..];
    ReplaceAllConcat(head, s[1..], '\\', "\\\\");
    var r1h := ReplaceAll(head, '\\', "\\\\");
    ReplaceAllConcat(r1h, ReplaceAll(s[1..], '\\', "\\\\"), '\'', "\\'");
    var r2h := ReplaceAll(r1h, '\'', "\\'");
    ReplaceAllConcat(r2h, ReplaceAll(ReplaceAll(s[1..], '\\', "\\\\"), '\'', "\\'"), '\n', "\\n");
    assert ReplaceAll(r2h, '\n', "\\n") == EscapedChar(s[0]) by {
      assert head[1..] == [];
      if s[0] == '\\' {
        assert r1h == "\\\\";
        assert "\\\\"[1..][1..] == [];
      } else if s[0] == '\'' {
        assert r1h == head;
        assert r2h == "\\'";
        assert "\\'"[1..][1..] == [];
      }
    }
  }

  /** Reading the literal `ToJsString` produces gives back the original text, provided it has no carriage return. */
  lemma {:induction false} ToJsStringRoundTrip(s: string)
    requires '\r' !in s
    ensures ParseJsString(ToJsString(s)) == Some(s)
  {
    var body := ReplaceAll(ReplaceAll(ReplaceAll(s, '\\', "\\\\"), '\'', "\\'"), '\n', "\\n");
    UnescapeEscaped(s);
    assert ToJsString(s)[1..|ToJsString(s)| - 1] == body;
  }

  lemma {:induction false} UnescapeEscaped(s: string)
    requires '\r' !in s
    ensures Unescape(ReplaceAll(ReplaceAll(ReplaceAll(s, '\\', "\\\\"), '\'', "\\'"), '\n', "\\n")) == Some(s)
  {
    if |s| > 0 {
      ReplacePassesEscapeEachChar(s);
      assert '\r' !in s[1..];
      UnescapeEscaped(s[1..]);
      var rest := ReplaceAll(ReplaceAll(ReplaceAll(s[1..], '\\', "\\\\"), '\'', "\\'"), '\n', "\\n");
      UnescapeStep(s[0], rest);
      assert [s[0]] + s[1..] == s;
    }
  }

  /** A carriage return passes through `ToJsString` unescaped, which no JavaScript string literal may contain. */
  lemma ToJsStringLeavesCarriageReturn()
    ensures ToJsString("\r") == "'\r'"
    ensures ParseJsString(ToJsString("\r")) == None
  {
    assert ToJsString("\r") == "'\r'";
    assert "'\r'"[1..2] == "\r";
  }

  /** `toJsString` with carriage returns escaped as well. */
  function ToJsStringFixed(str: string): string {
    "'" + ReplaceAll(ReplaceAll(ReplaceAll(ReplaceAll(str, '\\', "\\\\"), '\'', "\\'"), '\n', "\\n"), '\r', "\\r") + "'"
  }

  /** Escaping carriage returns too makes the literal read back as the original text for every input. */
  lemma {:induction false} ToJsStringFixedRoundTrip(s: string)
    ensures ParseJsString(ToJsStringFixed(s)) == Some(s)
  {
    UnescapeEscapedFixed(s);
    var body := ReplaceAll(ReplaceAll(ReplaceAll(ReplaceAll(s, '\\', "\\\\"), '\'', "\\'"), '\n', "\\n"), '\r', "\\r");
    assert ToJsStringFixed(s)[1..|ToJsStringFixed(s)| - 1] == body;
  }

  lemma {:induction false} UnescapeEscapedFixed(s: string)
    ensures Unescape(ReplaceAll(ReplaceAll(ReplaceAll(ReplaceAll(s, '\\', "\\\\"), '\'', "\\'"), '\n', "\\n"), '\r', "\\r")) == Some(s)
  {
    if |s| > 0 {
      ReplacePassesEscapeEachChar(s);
      var rest3 := ReplaceAll(ReplaceAll(ReplaceAll(s[1..], '\\', "\\\\"), '\'', "\\'"), '\n', "\\n");
      var e := EscapedChar(s[0]);
      ReplaceAllConcat(e, rest3, '\r', "\\r");
      UnescapeEscapedFixed(s[1..]);
      var rest := ReplaceAll(rest3, '\r', "\\r");
      EscapedCharThenCarriageReturn(s[0]);
      UnescapeStep(s[0], rest);
      assert [s[0]] + s[1..] == s;
    }
  }

  /** Escaping carriage returns after the three passes gives the four-escape form of one character. */
  lemma EscapedCharThenCarriageReturn(c: char)
    ensures ReplaceAll(EscapedChar(c), '\r', "\\r") == EscapedCharFixed(c)
  {
    var e := EscapedChar(c);
    if |e| == 2 {
      assert e[1..][1..] == [];
      assert ReplaceAll(e[1..], '\r', "\\r") == [e[1]];
    } else {
      assert e[1..] == [];
      assert e == [c];
    }
  }

  /** `toJsNumber`: the three non-finite spellings become `Number` constants; anything else is kept. */
  function ToJsNumber(numStr: string): (r: string)
    ensures numStr == "Infinity" ==> r == "Number.POSITIVE_INFINITY"
    ensures numStr == "-Infinity" ==> r == "Number.NEGATIVE_INFINITY"
    ensures numStr == "NaN" ==> r == "Number.NaN"
    ensures numStr !in {"Infinity", "-Infinity", "NaN"} ==> r == numStr
  {
    match numStr
    case "Infinity" => "Number.POSITIVE_INFINITY"
    case "-Infinity" => "Number.NEGATIVE_INFINITY"
    case "NaN" => "Number.NaN"
    case _ => numStr
  }

  /** Converting an already converted number changes nothing. */
  lemma ToJsNumberIdempotent(numStr: string)
    ensures ToJsNumber(ToJsNumber(numStr)) == ToJsNumber(numStr)
  {
  }

  // ---------------------------------------------------------------------
  // Indentation

  /** Two spaces per nesting level. */
  predicate IsIndentOf(r: string, depth: int) {
    |r| == 2 * (if depth < 0 then 0 else depth) && forall i :: 0 <= i < |r| ==> r[i] == ' '
  }

  /** `indent`: the precomputed texts for depths 0 to 12, a loop appending two spaces per level otherwise. */
  method Indent(depth: int) returns (r: string)
    ensures IsIndentOf(r, depth)
  {
    match depth
    case 0 => return "";
    case 1 => return "  ";
    case 2 => return "    ";
    case 3 => return "      ";
    case 4 => return "        ";
    case 5 => return "          ";
    case 6 => return "            ";
    case 7 => return "              ";
    case 8 => return "                ";
    case 9 => return "                  ";
    case 10 => return "                    ";
    case 11 => return "                      ";
    case 12 => return "                        ";
    case _ =>
      var ret := new StringBuilder("");
      var i := 0;
      while i < depth
        invariant 0 <= i && (depth >= 0 ==> i <= depth) && (depth < 0 ==> i == 0)
        invariant IsIndentOf(ret.text, i)
      {
        ret.Append("  ");
        i := i + 1;
      }
      return ret.text;
  }

  // ---------------------------------------------------------------------
  // Variable frame

  function DigitChar(d: int): char
    requires 0 <= d < 10
  {
    ('0' as int + d) as char
  }

  /** The decimal text of a natural number. */
  function NatToString(n: nat): (r: string)
    ensures |r| >= 1
    ensures forall i :: 0 <= i < |r| ==> '0' <= r[i] <= '9'
  {
    if n < 10 then [DigitChar(n)] else NatToString(n / 10) + [DigitChar(n % 10)]
  }

  /** Java's `%s` of an `int`: decimal, with a leading minus sign for negative values. */
  function IntToString(n: int): string {
    if n < 0 then "-" + NatToString(-n) else NatToString(n)
  }

  /** The value of a decimal text. */
  function DecimalValue(s: string): int
    requires forall i :: 0 <= i < |s| ==> '0' <= s[i] <= '9'
  {
    if |s| == 0 then 0 else DecimalValue(s[..|s| - 1]) * 10 + (s[|s| - 1] as int - '0' as int)
  }

  /** The decimal text reads back as the number. */
  lemma {:induction false} NatToStringRoundTrip(n: nat)
    ensures DecimalValue(NatToString(n)) == n
  {
    if n >= 10 {
      NatToStringRoundTrip(n / 10);
      var s := NatToString(n);
      assert s[..|s| - 1] == NatToString(n / 10);
    }
  }

  /**
   * `genPopFromVarFrame`: when the option is on and there are variables,
   * appends one indented statement dropping them from the variable frame:
   * `pop()` for one variable, `splice(length - n, n)` otherwise.
   */
  method GenPopFromVarFrame(ids: Identifiers, numVars: int, code: StringBuilder, nestLevel: int, option: CompileOption)
    modifies code
    ensures !option.addVarAccessorToVarStack || numVars == 0 ==> code.text == old(code.text)
    ensures option.addVarAccessorToVarStack && numVars != 0 ==>
      exists ind :: IsIndentOf(ind, nestLevel) && code.text == old(code.text) + ind +
        (if numVars == 1 then ids.varFrame + "." + ids.pop + "()"
         else ids.varFrame + "." + ids.splice + "(" + ids.varFrame + "." + ids.length + " - "
              + IntToString(numVars) + ", " + IntToString(numVars) + ")")
        + ";" + ids.newLine
  {
    if !option.addVarAccessorToVarStack || numVars == 0 {
      return;
    }
    var ind := Indent(nestLevel);
    code.Append(ind);
    var stmt: string;
    if numVars == 1 {
      stmt := ids.varFrame + "." + ids.pop + "()";
    } else {
      stmt := ids.varFrame + "." + ids.splice + "(" + ids.varFrame + "." + ids.length + " - "
              + IntToString(numVars) + ", " + IntToString(numVars) + ")";
    }
    code.Append(stmt);
    code.Append(";" + ids.newLine);
  }
}
