/**
 * Partial node view styles (`BhNodeViewStyleSnippet`): a snippet holds the
 * style parameters it sets and a list of sub-snippets, and building a style
 * takes each parameter from the snippet itself, else from the first
 * sub-snippet that sets it, else from the style's default.
 *
 * The parameters are named by `Key`: a top-level parameter, or a parameter of
 * one of the nested parts (the connective part, the text field part, ...).
 * Their values are kept opaque, except the arrangement parameters of the
 * connective part, whose snippets are turned into arrangement styles.
 */
module StyleSnippets {
  import opened Wrappers

  /** The nested parts of a style that `build` fills through `populateStyle`. */
  datatype Part = Connective | CommonPart | SpecificPart | TextField | Label | ComboBox | TextArea

  /** A style parameter: a field of the style, or a field of one of its parts. */
  datatype Key = Field(name: string) | PartField(part: Part, name: string)

  /** `ChildArrangement`. */
  datatype ChildArrangement = Row | Column

  /** `ArrangementSnippet`: the arrangement parameters a snippet sets, its slot names and sub-groups. */
  datatype ArrangementSnippet = ArrangementSnippet(
    space: Option<real>,
    paddingTop: Option<real>,
    paddingRight: Option<real>,
    paddingBottom: Option<real>,
    paddingLeft: Option<real>,
    arrangement: Option<ChildArrangement>,
    cnctrNames: seq<string>,
    subGroups: seq<ArrangementSnippet>)

  /** `BhNodeViewStyle.Arrangement`. */
  datatype Arrangement = Arrangement(
    space: real,
    paddingTop: real,
    paddingRight: real,
    paddingBottom: real,
    paddingLeft: real,
    arrangement: ChildArrangement,
    cnctrNames: seq<string>,
    subGroups: seq<Arrangement>)

  /** A freshly constructed `Arrangement`; `nodeScale` is the look-and-feel node scale. */
  function DefaultArrangement(nodeScale: real): Arrangement {
    Arrangement(2.5 * nodeScale, 0.0, 0.0, 0.0, 0.0, Column, [], [])
  }

  /**
   * `ArrangementSnippet.populateStyle`: every parameter the snippet sets
   * replaces the style's, the others keep the style's value, the slot names
   * are the snippet's, and each sub-group is populated into a fresh
   * arrangement.
   */
  function PopulateArrangement(s: ArrangementSnippet, style: Arrangement, nodeScale: real): (r: Arrangement)
    ensures r.space == (if s.space.Some? then s.space.value else style.space)
    ensures r.paddingTop == (if s.paddingTop.Some? then s.paddingTop.value else style.paddingTop)
    ensures r.paddingRight == (if s.paddingRight.Some? then s.paddingRight.value else style.paddingRight)
    ensures r.paddingBottom == (if s.paddingBottom.Some? then s.paddingBottom.value else style.paddingBottom)
    ensures r.paddingLeft == (if s.paddingLeft.Some? then s.paddingLeft.value else style.paddingLeft)
    ensures r.arrangement == (if s.arrangement.Some? then s.arrangement.value else style.arrangement)
    ensures r.cnctrNames == s.cnctrNames
    ensures |r.subGroups| == |s.subGroups|
    ensures forall j {:trigger r.subGroups[j]} | 0 <= j < |s.subGroups| ::
      r.subGroups[j] == PopulateArrangement(s.subGroups[j], DefaultArrangement(nodeScale), nodeScale)
    decreases s
  {
    Arrangement(
      if s.space.None? then style.space else s.space.value,
      if s.paddingTop.None? then style.paddingTop else s.paddingTop.value,
      if s.paddingRight.None? then style.paddingRight else s.paddingRight.value,
      if s.paddingBottom.None? then style.paddingBottom else s.paddingBottom.value,
      if s.paddingLeft.None? then style.paddingLeft else s.paddingLeft.value,
      if s.arrangement.None? then style.arrangement else s.arrangement.value,
      s.cnctrNames,
      PopulateGroups(s, 0, nodeScale))
  }

  /** The populated sub-groups of `s` from index `i` on. */
  function PopulateGroups(s: ArrangementSnippet, i: nat, nodeScale: real): (r: seq<Arrangement>)
    requires i <= |s.subGroups|
    ensures |r| == |s.subGroups| - i
    ensures forall j {:trigger r[j]} | 0 <= j < |r| ::
      r[j] == PopulateArrangement(s.subGroups[i + j], DefaultArrangement(nodeScale), nodeScale)
    decreases s, |s.subGroups| - i
  {
    if i == |s.subGroups| then []
    else
      assert s.subGroups[i] in s.subGroups;
      var first := PopulateArrangement(s.subGroups[i], DefaultArrangement(nodeScale), nodeScale);
      var rest := PopulateGroups(s, i + 1, nodeScale);
      [first] + rest
  }

  /**
   * Populating twice with the same snippet gives what populating once gives:
   * the snippet's parameters win, and the sub-groups are rebuilt from the
   * snippet alone.
   */
  lemma PopulateArrangementIdempotent(s: ArrangementSnippet, style: Arrangement, nodeScale: real)
    ensures PopulateArrangement(s, PopulateArrangement(s, style, nodeScale), nodeScale) ==
            PopulateArrangement(s, style, nodeScale)
  {
  }

  /**
   * A snippet that sets nothing keeps every parameter of the style and leaves
   * it without slot names and sub-groups.
   */
  lemma PopulateEmptyKeepsStyle(style: Arrangement, nodeScale: real)
    ensures var empty := ArrangementSnippet(None, None, None, None, None, None, [], []);
            PopulateArrangement(empty, style, nodeScale) == style.(cnctrNames := [], subGroups := [])
  {
    var empty := ArrangementSnippet(None, None, None, None, None, None, [], []);
    assert PopulateGroups(empty, 0, nodeScale) == [];
  }

  /** What a snippet sets for a parameter: an opaque value, or an arrangement snippet. */
  datatype SnippetValue = Plain(repr: string) | Arranged(snippet: ArrangementSnippet)

  /** A parameter of a built style. */
  datatype StyleValue = Value(repr: string) | ArrangementStyle(style: Arrangement)

  /** `subs[i]` is the first of `subs` that sets `key`. */
  predicate FirstSetter(subs: seq<map<Key, SnippetValue>>, key: Key, i: int) {
    0 <= i < |subs| && key in subs[i] && forall j :: 0 <= j < i ==> key !in subs[j]
  }

  /**
   * `find`: the snippet's own value if it sets the parameter, else the value
   * of the first sub-snippet (in list order) that sets it, else nothing.
   */
  function FindIn(own: map<Key, SnippetValue>, subs: seq<map<Key, SnippetValue>>, key: Key): (r: Option<SnippetValue>)
    ensures key in own ==> r == Some(own[key])
    ensures key !in own && r.Some? ==> exists i :: FirstSetter(subs, key, i) && r.value == subs[i][key]
    ensures r.None? <==> key !in own && forall i :: 0 <= i < |subs| ==> key !in subs[i]
    decreases |subs|
  {
    if key in own then Some(own[key])
    else if subs == [] then None
    else if key in subs[0] then
      assert FirstSetter(subs, key, 0);
      Some(subs[0][key])
    else
      var r := FindIn(map[], subs[1..], key);
      assert forall i :: 1 <= i < |subs| ==> subs[i] == subs[1..][i - 1];
      assert r.Some? ==> exists i :: FirstSetter(subs, key, i) && r.value == subs[i][key] by {
        if r.Some? {
          var i :| FirstSetter(subs[1..], key, i) && r.value == subs[1..][i][key];
          assert FirstSetter(subs, key, i + 1);
        }
      }
      r
  }

  /** A found value as a style parameter: arrangement snippets are populated into a fresh arrangement. */
  function Resolve(v: SnippetValue, nodeScale: real): StyleValue {
    match v
    case Plain(repr) => Value(repr)
    case Arranged(a) => ArrangementStyle(PopulateArrangement(a, DefaultArrangement(nodeScale), nodeScale))
  }

  /**
   * `build` with the nested parts looked up in the sub-snippets as the top
   * level is: every parameter of the default style is taken from the first
   * snippet that sets it, or kept.
   */
  function BuiltFrom(own: map<Key, SnippetValue>, subs: seq<map<Key, SnippetValue>>,
                     defaults: map<Key, StyleValue>, nodeScale: real): (style: map<Key, StyleValue>)
    ensures style.Keys == defaults.Keys
    ensures forall k | k in defaults :: FindIn(own, subs, k).None? ==> style[k] == defaults[k]
    ensures forall k | k in defaults && k in own :: style[k] == Resolve(own[k], nodeScale)
    ensures forall k, i | k in defaults && k !in own && FirstSetter(subs, k, i) :: style[k] == Resolve(subs[i][k], nodeScale)
  {
    assert forall k, i | k !in own && FirstSetter(subs, k, i) :: FindIn(own, subs, k) == Some(subs[i][k]) by {
      forall k, i | k !in own && FirstSetter(subs, k, i) ensures FindIn(own, subs, k) == Some(subs[i][k]) {
        FirstDefinedFound(own, subs, k, i);
      }
    }
    map k | k in defaults :: if FindIn(own, subs, k).Some? then Resolve(FindIn(own, subs, k).value, nodeScale) else defaults[k]
  }

  /**
   * The lookup `build` makes AS WRITTEN: a top-level parameter is found as by
   * `find`, but a nested part is looked up through a getter that returns the
   * snippet's own part whatever sub-snippet it is given, so only the snippet's
   * own value counts.
   */
  function FindAsWritten(own: map<Key, SnippetValue>, subs: seq<map<Key, SnippetValue>>, key: Key): (r: Option<SnippetValue>)
    ensures key.PartField? ==> (r.Some? <==> key in own)
    ensures key.Field? ==> r == FindIn(own, subs, key)
  {
    if key.PartField? then FindIn(own, seq(|subs|, i => own), key) else FindIn(own, subs, key)
  }

  /** `build` AS WRITTEN. */
  function BuiltAsWritten(own: map<Key, SnippetValue>, subs: seq<map<Key, SnippetValue>>,
                          defaults: map<Key, StyleValue>, nodeScale: real): (style: map<Key, StyleValue>)
    ensures style.Keys == defaults.Keys
  {
    map k | k in defaults ::
      if FindAsWritten(own, subs, k).Some? then Resolve(FindAsWritten(own, subs, k).value, nodeScale) else defaults[k]
  }

  /**
   * As written, a nested parameter that only a sub-snippet sets never reaches
   * the built style: the default stays, where the intended lookup takes the
   * sub-snippet's value.
   */
  lemma NestedPartIgnoresSubSnippets(nodeScale: real)
    ensures var key := PartField(TextField, "cssClass");
            var defaults := map[key := Value("default")];
            var subs := [map[key := Plain("sub")]];
            && BuiltAsWritten(map[], subs, defaults, nodeScale)[key] == Value("default")
            && BuiltFrom(map[], subs, defaults, nodeScale)[key] == Value("sub")
  {
    var key := PartField(TextField, "cssClass");
    var subs := [map[key := Plain("sub")]];
    assert key in subs[0];
    assert FindAsWritten(map[], subs, key).None?;
  }

  /** `BhNodeViewStyleSnippet`: the parameters the snippet sets and its sub-snippets, newest first. */
  class StyleSnippet {
    var values: map<Key, SnippetValue>
    var subSnippets: seq<StyleSnippet>

    constructor(values: map<Key, SnippetValue>)
      ensures this.values == values && subSnippets == []
    {
      this.values := values;
      subSnippets := [];
    }

    /** `addSubSnippet`: the snippet added last is consulted first. */
    method AddSubSnippet(snippet: StyleSnippet)
      modifies this
      ensures subSnippets == [snippet] + old(subSnippets) && values == old(values)
    {
      subSnippets := [snippet] + subSnippets;
    }

    /** `addSubSnippets`: adds each in order, so the last of them ends up first. */
    method AddSubSnippets(snippets: seq<StyleSnippet>)
      modifies this
      ensures subSnippets == Reversed(snippets) + old(subSnippets) && values == old(values)
    {
      var i := 0;
      while i < |snippets|
        invariant 0 <= i <= |snippets|
        invariant subSnippets == Reversed(snippets[..i]) + old(subSnippets) && values == old(values)
      {
        assert snippets[..i + 1] == snippets[..i] + [snippets[i]];
        AddSubSnippet(snippets[i]);
        i := i + 1;
      }
      assert snippets[..i] == snippets;
    }

    /** `find`: scans the own value and then the sub-snippets in list order. */
    method Find(key: Key) returns (r: Option<SnippetValue>)
      ensures r == FindIn(values, ValuesOf(subSnippets), key)
    {
      if key in values {
        return Some(values[key]);
      }
      var i := 0;
      while i < |subSnippets|
        invariant 0 <= i <= |subSnippets|
        invariant forall j :: 0 <= j < i ==> key !in ValuesOf(subSnippets)[j]
      {
        if key in subSnippets[i].values {
          FirstDefinedFound(values, ValuesOf(subSnippets), key, i);
          return Some(subSnippets[i].values[key]);
        }
        i := i + 1;
      }
      return None;
    }

    /**
     * `build`, with the nested parts looked up as the top level is: the style
     * whose parameters are `defaults` overridden by the snippet's own values
     * and then by the first sub-snippet that sets each.
     */
    function Build(defaults: map<Key, StyleValue>, nodeScale: real): (style: map<Key, StyleValue>)
      reads this, set s | s in subSnippets
      ensures style.Keys == defaults.Keys
      ensures forall k | k in defaults && k !in values && (forall s | s in subSnippets :: k !in s.values) ::
        style[k] == defaults[k]
      ensures forall k | k in defaults && k in values :: style[k] == Resolve(values[k], nodeScale)
      ensures forall k, i | k in defaults && k !in values && FirstSetter(ValuesOf(subSnippets), k, i) ::
        style[k] == Resolve(subSnippets[i].values[k], nodeScale)
    {
      var subs := ValuesOf(subSnippets);
      assert forall k | k in defaults && k !in values && (forall s | s in subSnippets :: k !in s.values) ::
        FindIn(values, subs, k).None? by {
        forall k | k in defaults && k !in values && (forall s | s in subSnippets :: k !in s.values)
          ensures FindIn(values, subs, k).None?
        {
          forall i | 0 <= i < |subs| ensures k !in subs[i] {
            assert subSnippets[i] in subSnippets;
          }
        }
      }
      BuiltFrom(values, subs, defaults, nodeScale)
    }
  }

  function Reversed<T>(s: seq<T>): (r: seq<T>)
    ensures |r| == |s|
    ensures forall i :: 0 <= i < |s| ==> r[i] == s[|s| - 1 - i]
  {
    if s == [] then [] else [s[|s| - 1]] + Reversed(s[..|s| - 1])
  }

  /** The parameter maps of a list of snippets. */
  function ValuesOf(ss: seq<StyleSnippet>): (r: seq<map<Key, SnippetValue>>)
    reads set s | s in ss
    ensures |r| == |ss|
    ensures forall i :: 0 <= i < |ss| ==> r[i] == ss[i].values
  {
    if ss == [] then [] else [ss[0].values] + ValuesOf(ss[1..])
  }

  /** The first sub-snippet setting the parameter gives the value `find` returns. */
  lemma FirstDefinedFound(own: map<Key, SnippetValue>, subs: seq<map<Key, SnippetValue>>, key: Key, i: nat)
    requires key !in own && i < |subs| && key in subs[i]
    requires forall j :: 0 <= j < i ==> key !in subs[j]
    ensures FindIn(own, subs, key) == Some(subs[i][key])
  {
    var r := FindIn(own, subs, key);
    var i' :| FirstSetter(subs, key, i') && r.value == subs[i'][key];
    assert i' == i;
  }
}
