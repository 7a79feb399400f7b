/**
 * The symbol-name tables the compiler consults (`SymbolNames`): node names of
 * variable declarations, statements and expressions, the initial value of
 * each variable kind and the JavaScript operator of each operator keyword.
 * The texts of the nil colour and nil sound come from the runtime's
 * identifier table and are parameters.
 */
module SymbolNames {
  // Variable declarations
  const NumVarDecl := "NumVarDecl"
  const NumVar := "NumVar"
  const NumVarVoid := "NumVarVoid"
  const NumListDecl := "NumListDecl"
  const NumList := "NumList"
  const NumEmptyList := "NumEmptyList"
  const StrVarDecl := "StrVarDecl"
  const StrVar := "StrVar"
  const StrVarVoid := "StrVarVoid"
  const StrListDecl := "StrListDecl"
  const StrList := "StrList"
  const StrEmptyList := "StrEmptyList"
  const BoolVarDecl := "BoolVarDecl"
  const BoolVar := "BoolVar"
  const BoolVarVoid := "BoolVarVoid"
  const BoolListDecl := "BoolListDecl"
  const BoolList := "BoolList"
  const BoolEmptyList := "BoolEmptyList"
  const ColorVarDecl := "ColorVarDecl"
  const ColorVar := "ColorVar"
  const ColorVarVoid := "ColorVarVoid"
  const ColorListDecl := "ColorListDecl"
  const ColorList := "ColorList"
  const ColorEmptyList := "ColorEmptyList"
  const SoundVarDecl := "SoundVarDecl"
  const SoundVar := "SoundVar"
  const SoundVarVoid := "SoundVarVoid"
  const SoundListDecl := "SoundListDecl"
  const SoundList := "SoundList"
  const SoundEmptyList := "SoundEmptyList"
  const VarName := "VarName"
  const ListName := "ListName"

  /** `VarDecl.LIST`: the declaration nodes. */
  const VarDeclList: set<string> := {NumVarDecl, NumListDecl, StrVarDecl, StrListDecl, BoolVarDecl,
                                     BoolListDecl, ColorVarDecl, ColorListDecl, SoundVarDecl, SoundListDecl}

  /** `VarDecl.VAR_LIST`: the variable reference nodes. */
  const VarList: set<string> := {NumVar, NumList, StrVar, StrList, BoolVar, BoolList, ColorVar, ColorList,
                                 SoundVar, SoundList}

  /** `VarDecl.VAR_VOID_LIST`: the placeholder nodes of empty variable and list slots. */
  const VarVoidList: set<string> := {NumVarVoid, StrVarVoid, BoolVarVoid, ColorVarVoid, SoundVarVoid,
                                     NumEmptyList, StrEmptyList, BoolEmptyList, ColorEmptyList, SoundEmptyList}

  /** `VarDecl.VAR_NAME_CNCTR_LIST`. */
  const VarNameCnctrList: set<string> := {VarName, ListName}

  /** The list declarations and empty-list placeholders. */
  const ListSymbols: set<string> := {NumListDecl, StrListDecl, BoolListDecl, ColorListDecl, SoundListDecl,
                                     NumEmptyList, StrEmptyList, BoolEmptyList, ColorEmptyList, SoundEmptyList}

  /** `VarDecl.INIT_VAL_MAP`: the JavaScript initial value of each declaration and placeholder. */
  function InitValMap(nilColor: string, nilSound: string): map<string, string> {
    map[NumVarDecl := "0", NumListDecl := "[]", StrVarDecl := "''", StrListDecl := "[]",
        BoolVarDecl := "false", BoolListDecl := "[]", ColorVarDecl := nilColor, ColorListDecl := "[]",
        SoundVarDecl := nilSound, SoundListDecl := "[]",
        NumVarVoid := "0", StrVarVoid := "''", BoolVarVoid := "false", ColorVarVoid := nilColor,
        SoundVarVoid := nilSound,
        NumEmptyList := "[]", StrEmptyList := "[]", BoolEmptyList := "[]", ColorEmptyList := "[]",
        SoundEmptyList := "[]"]
  }

  /** Exactly the declarations and the placeholders have an initial value. */
  lemma InitValMapKeys(nilColor: string, nilSound: string)
    ensures InitValMap(nilColor, nilSound).Keys == VarDeclList + VarVoidList
  {
  }

  /** Every list declaration and empty-list placeholder starts as `[]`. */
  lemma InitValOfListsIsEmpty(nilColor: string, nilSound: string)
    ensures forall k :: k in ListSymbols ==> k in InitValMap(nilColor, nilSound) && InitValMap(nilColor, nilSound)[k] == "[]"
  {
  }

  /** A variable placeholder starts with the initial value of the matching declaration. */
  lemma InitValOfVoidMatchesDecl(nilColor: string, nilSound: string)
    ensures var m := InitValMap(nilColor, nilSound);
      m[NumVarVoid] == m[NumVarDecl] && m[StrVarVoid] == m[StrVarDecl] && m[BoolVarVoid] == m[BoolVarDecl]
      && m[ColorVarVoid] == m[ColorVarDecl] && m[SoundVarVoid] == m[SoundVarDecl]
  {
  }

  // Statements
  const VoidStat := "VoidStat"
  const StatList := "StatList"
  const NextStat := "NextStat"
  const CommentPart := "CommentPart"
  const StatToBeIgnoredList: set<string> := {CommentPart}
  const NumAddAssignStat := "NumAddAssignStat"
  const AnyAssignStat := "AnyAssignStat"
  const AssignStatList: set<string> := {AnyAssignStat, NumAddAssignStat}
  const ControlStatList: set<string> := {"IfStat", "IfElseStat", "WhileStat", "RepeatStat", "CompoundStat",
                                         "ContinueStat", "BreakStat", "ReturnStat", "CriticalSectionStat"}

  // Binary expressions
  const FourArithExp := "FourArithExp"
  const BinaryBoolExp := "BinaryBoolExp"
  const ModExp := "ModExp"
  const NumCompExp := "NumCompExp"
  const StrCompExp := "StrCompExp"

  /** `BinaryExp.LIST`. */
  const BinaryExpList: set<string> := {FourArithExp, ModExp, BinaryBoolExp, NumCompExp, StrCompExp}

  /** `BinaryExp.ARITH_EXCEPTION_EXP`: the expressions whose evaluation may raise an arithmetic error. */
  const ArithExceptionExp: set<string> := {FourArithExp, ModExp}

  /** `BinaryExp.OPERATOR_MAP`: operator keyword to the JavaScript operator, with a space on each side. */
  const OperatorMap: map<string, string> :=
    map["add" := " + ", "sub" := " - ", "div" := " / ", "mul" := " * ", "mod" := " % ",
        "and" := " && ", "or" := " || ",
        "eq" := " === ", "neq" := " !== ", "lt" := " < ", "lte" := " <= ", "gt" := " > ", "gte" := " >= "]

  /** `v` is an operator token with exactly one space on each side. */
  predicate SpacePadded(v: string) {
    |v| >= 3 && v[0] == ' ' && v[|v| - 1] == ' ' && forall i :: 1 <= i < |v| - 1 ==> v[i] != ' '
  }

  /** The expressions that may raise an arithmetic error are binary expressions. */
  lemma ArithExpsAreBinary()
    ensures ArithExceptionExp <= BinaryExpList
  {
  }

  /** No binary expression name is also an assignment or control statement name. */
  lemma BinaryExpsAreNoStatements()
    ensures BinaryExpList !! AssignStatList && BinaryExpList !! ControlStatList
  {
  }

  /** The declaration, variable and void-variable tables share no name. */
  lemma VarTablesDisjoint()
    ensures VarDeclList !! VarList && VarDeclList !! VarVoidList && VarList !! VarVoidList
  {
  }

  /** The 13 operator keywords of the table. */
  lemma OperatorMapKeys()
    ensures OperatorMap.Keys == {"add", "sub", "div", "mul", "mod", "and", "or", "eq", "neq", "lt", "lte", "gt", "gte"}
  {
  }

  /** Every operator keyword maps to a JavaScript operator with one space on each side. */
  lemma OperatorMapSpacePadded()
    ensures forall k :: k in OperatorMap ==> SpacePadded(OperatorMap[k])
  {
    OperatorMapKeys();
  }

  /** Distinct operator keywords map to distinct JavaScript operators. */
  lemma OperatorMapInjective()
    ensures forall k1, k2 :: k1 in OperatorMap && k2 in OperatorMap && k1 != k2 ==> OperatorMap[k1] != OperatorMap[k2]
  {
    OperatorMapKeys();
  }

  // Unary expressions
  const NotExp := "NotExp"
  const NegExp := "NegExp"
  const UnaryExpList: set<string> := {NotExp, NegExp}

  /** `UnaryExp.OPERATOR_MAP`. */
  const UnaryOperatorMap: map<string, string> := map[NotExp := "!", NegExp := "-"]

  /** Every unary expression has its operator: `!` for negation of a boolean, `-` for a number. */
  lemma UnaryOperatorMapComplete()
    ensures UnaryOperatorMap.Keys == UnaryExpList
    ensures UnaryOperatorMap[NotExp] == "!" && UnaryOperatorMap[NegExp] == "-"
    ensures UnaryExpList !! BinaryExpList
  {
  }
}
