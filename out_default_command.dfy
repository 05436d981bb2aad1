/** The output sink that records each command's output and errors in the extended
    history and refreshes the "last result" variable. Its per-command rules are pure
    functions of abstract inputs; the command object that applies them across the
    Begin / Process / End phases is a class. */
module OutDefault {
  import opened Wrappers
  import opened Engine
  import opened Sequences
  import opened Config
  import opened Records
  import opened Table

  // ---------------------------------------------------------------------------
  // Type-name exclusion filter for the captured output

  const DeserializedPrefix: string := "Deserialized."
  const SelectedPrefix: string := "Selected."

  /** `p` is a prefix of `x`. */
  predicate HasPrefix(x: string, p: string) {
    |p| <= |x| && x[..|p|] == p
  }

  /** Strip one leading "Deserialized." or "Selected." (the anchored regular
      expression replaces at most one occurrence, at the start). */
  function StripPrefix(x: string): (r: string)
    ensures HasPrefix(x, DeserializedPrefix) ==> DeserializedPrefix + r == x
    ensures !HasPrefix(x, DeserializedPrefix) && HasPrefix(x, SelectedPrefix) ==> SelectedPrefix + r == x
    ensures !HasPrefix(x, DeserializedPrefix) && !HasPrefix(x, SelectedPrefix) ==> r == x
  {
    if HasPrefix(x, DeserializedPrefix) then x[|DeserializedPrefix|..]
    else if HasPrefix(x, SelectedPrefix) then x[|SelectedPrefix|..]
    else x
  }

  /** The three spellings a type name is compared under: the stripped name, and the
      stripped name with each prefix. */
  function Forms(x: string): (r: seq<string>)
    ensures |r| == 3 && x in r
  {
    var y := StripPrefix(x);
    assert HasPrefix(x, DeserializedPrefix) ==> x == DeserializedPrefix + y;
    [y, DeserializedPrefix + y, SelectedPrefix + y]
  }

  /** An object with these type names may enter the captured output: the exclusion
      list is present and non-empty, and no spelling of any type name is in it. */
  predicate Admitted(excludedTypes: Option<seq<string>>, typeNames: seq<string>) {
    && excludedTypes.Some?
    && |excludedTypes.value| > 0
    && !exists i, j :: 0 <= i < |typeNames| && 0 <= j < 3 && Forms(typeNames[i])[j] in excludedTypes.value
  }

  /** An admitted object carries no excluded type name, under any spelling. */
  lemma AdmittedExcludesListed(excludedTypes: Option<seq<string>>, typeNames: seq<string>)
    requires Admitted(excludedTypes, typeNames)
    ensures forall t :: t in typeNames ==> t !in excludedTypes.value
    ensures forall t :: t in typeNames ==> DeserializedPrefix + StripPrefix(t) !in excludedTypes.value
    ensures forall t :: t in typeNames ==> SelectedPrefix + StripPrefix(t) !in excludedTypes.value
  {
    forall t | t in typeNames ensures t !in excludedTypes.value {
      var i :| 0 <= i < |typeNames| && typeNames[i] == t;
      var j :| 0 <= j < 3 && Forms(t)[j] == t;
      assert Forms(typeNames[i])[j] !in excludedTypes.value;
    }
    forall t | t in typeNames
      ensures DeserializedPrefix + StripPrefix(t) !in excludedTypes.value
      ensures SelectedPrefix + StripPrefix(t) !in excludedTypes.value
    {
      var i :| 0 <= i < |typeNames| && typeNames[i] == t;
      assert Forms(typeNames[i])[1] !in excludedTypes.value;
      assert Forms(typeNames[i])[2] !in excludedTypes.value;
    }
  }

  /** A serialized or selected copy of an object is filtered like the object: a
      type name and its two prefixed spellings have the same forms. */
  lemma FormsIgnorePrefix(y: string)
    requires !HasPrefix(y, DeserializedPrefix) && !HasPrefix(y, SelectedPrefix)
    ensures Forms(DeserializedPrefix + y) == Forms(y)
    ensures Forms(SelectedPrefix + y) == Forms(y)
  {
    assert HasPrefix(DeserializedPrefix + y, DeserializedPrefix) by {
      assert (DeserializedPrefix + y)[..|DeserializedPrefix|] == DeserializedPrefix;
    }
    assert (DeserializedPrefix + y)[|DeserializedPrefix|..] == y;
    assert !HasPrefix(SelectedPrefix + y, DeserializedPrefix) by {
      assert (SelectedPrefix + y)[0] != DeserializedPrefix[0];
    }
    assert HasPrefix(SelectedPrefix + y, SelectedPrefix) by {
      assert (SelectedPrefix + y)[..|SelectedPrefix|] == SelectedPrefix;
    }
    assert (SelectedPrefix + y)[|SelectedPrefix|..] == y;
  }

  /** A missing or empty exclusion list captures nothing. */
  lemma NoListCapturesNothing(typeNames: seq<string>)
    ensures !Admitted(None, typeNames) && !Admitted(Some([]), typeNames)
  {
  }

  /** An object carrying a listed type name is not admitted. */
  lemma ListedNotAdmitted(excludedTypes: Option<seq<string>>, typeNames: seq<string>, i: nat)
    requires excludedTypes.Some? && i < |typeNames| && typeNames[i] in excludedTypes.value
    ensures !Admitted(excludedTypes, typeNames)
  {
    var f := Forms(typeNames[i]);
    var j :| 0 <= j < 3 && f[j] == typeNames[i];
  }

  /** Under the default settings strings are never captured. */
  lemma DefaultExcludesStrings()
    ensures !Admitted(Default().excludedTypes, ["System.String", "System.Object"])
  {
    ListedNotAdmitted(Default().excludedTypes, ["System.String", "System.Object"], 0);
  }

  /** Nor are deserialized strings. */
  lemma DefaultExcludesDeserializedStrings()
    ensures !Admitted(Default().excludedTypes, [DeserializedPrefix + "System.String"])
  {
    var x := "System.String";
    var d := DeserializedPrefix + x;
    assert HasPrefix(d, DeserializedPrefix) by {
      assert d[..|DeserializedPrefix|] == DeserializedPrefix;
    }
    assert d[|DeserializedPrefix|..] == x;
    assert Forms([d][0])[0] == DefaultExcludedTypes[2];
  }

  /** Under the default settings an object whose only type name is unlisted is
      captured. */
  lemma DefaultAdmitsFileInfo()
    ensures Admitted(Default().excludedTypes, ["System.IO.FileInfo"])
  {
    var names := ["System.IO.FileInfo"];
    Unprefixed(names[0]);
    forall i, j | 0 <= i < |names| && 0 <= j < 3 ensures Forms(names[i])[j] !in DefaultExcludedTypes {
      assert |Forms(names[i])[j]| in {18, 31, 27};
      UnlistedLength(Forms(names[i])[j]);
    }
  }

  /** A name that starts with neither prefix is its own stripped form. */
  lemma Unprefixed(x: string)
    requires |x| >= 2 && x[0] != 'D' && (x[0] != 'S' || x[1] != 'e')
    ensures StripPrefix(x) == x
    ensures Forms(x) == [x, DeserializedPrefix + x, SelectedPrefix + x]
  {
    assert !HasPrefix(x, DeserializedPrefix) by {
      if |DeserializedPrefix| <= |x| {
        assert x[..|DeserializedPrefix|][0] == x[0];
      }
    }
    assert !HasPrefix(x, SelectedPrefix) by {
      if |SelectedPrefix| <= |x| {
        assert x[..|SelectedPrefix|][0] == x[0] && x[..|SelectedPrefix|][1] == x[1];
      }
    }
  }

  /** No default exclusion is 18, 27 or 31 characters long. */
  lemma UnlistedLength(s: string)
    requires |s| in {18, 27, 31}
    ensures s !in DefaultExcludedTypes
  {
    forall k | 0 <= k < |DefaultExcludedTypes| ensures DefaultExcludedTypes[k] != s {
      assert |DefaultExcludedTypes[k]| !in {18, 27, 31};
    }
  }

  // ---------------------------------------------------------------------------
  // Whether the "last result" variable keeps its previous value

  /** The increment and decrement operators, prefix and postfix. */
  predicate IsIncrementOrDecrement(k: TokenKind) {
    k.PlusPlus? || k.MinusMinus? || k.PostfixPlusPlus? || k.PostfixMinusMinus?
  }

  /** Unwrapping index targets and member owners reaches a variable. */
  predicate RootIsVariable(e: Ast) {
    match e
    case IndexExpressionAst(_, target, _) => RootIsVariable(target)
    case MemberExpressionAst(_, expression, _) => RootIsVariable(expression)
    case VariableExpressionAst(_) => true
    case _ => false
  }

  /** A top-level statement that does not refresh the variable: an assignment, a
      function definition, or a one-element pipeline whose command expression is an
      increment/decrement or a variable reference through indexes and members. */
  predicate IsExempt(stmt: Ast) {
    || stmt.AssignmentStatementAst?
    || stmt.FunctionDefinitionAst?
    || (&& stmt.PipelineAst?
        && |stmt.pipelineElements| == 1
        && stmt.pipelineElements[0].CommandExpressionAst?
        && var e := stmt.pipelineElements[0].expression;
           if e.UnaryExpressionAst? then IsIncrementOrDecrement(e.tokenKind) else RootIsVariable(e))
  }

  /** This node itself names the variable: a variable reference whose text is the
      identifier, or an index expression whose target's text is. */
  predicate NamesVariable(a: Ast, identifier: string) {
    || (a.VariableExpressionAst? && EqualsIgnoreCase(a.extent, identifier))
    || (a.IndexExpressionAst? && EqualsIgnoreCase(a.target.extent, identifier))
  }

  /** Some node of the tree (the root included, nested script blocks searched)
      names the variable. */
  predicate Mentions(a: Ast, identifier: string) {
    || NamesVariable(a, identifier)
    || match a
       case ScriptBlockAst(_, hasEndBlock, endBlock, otherBlocks) =>
         || (hasEndBlock && exists i :: 0 <= i < |endBlock| && Mentions(endBlock[i], identifier))
         || (exists i :: 0 <= i < |otherBlocks| && Mentions(otherBlocks[i], identifier))
       case AssignmentStatementAst(_, left, right) => Mentions(left, identifier) || Mentions(right, identifier)
       case FunctionDefinitionAst(_, body) => Mentions(body, identifier)
       case PipelineAst(_, elements) => exists i :: 0 <= i < |elements| && Mentions(elements[i], identifier)
       case CommandExpressionAst(_, expression) => Mentions(expression, identifier)
       case UnaryExpressionAst(_, _, child) => Mentions(child, identifier)
       case IndexExpressionAst(_, target, index) => Mentions(target, identifier) || Mentions(index, identifier)
       case MemberExpressionAst(_, expression, member) => Mentions(expression, identifier) || Mentions(member, identifier)
       case VariableExpressionAst(_) => false
       case OtherAst(_, children) => exists i :: 0 <= i < |children| && Mentions(children[i], identifier)
  }

  /** The variable keeps its previous value when there is no tree, no end block or no
      statement in it, when every statement is exempt, or when the command line
      itself refers to the variable. */
  predicate KeepLastValue(root: Option<ScriptBlock>, identifier: string) {
    || root.None?
    || !root.value.hasEndBlock
    || |root.value.endBlock| == 0
    || (forall i :: 0 <= i < |root.value.endBlock| ==> IsExempt(root.value.endBlock[i]))
    || Mentions(root.value, identifier)
  }

  /** A command line of one statement, parsed into a script block with an end block. */
  function OneStatement(stmt: Ast): (root: ScriptBlock)
    ensures root.hasEndBlock && root.endBlock == [stmt]
  {
    ScriptBlockAst(stmt.extent, true, [stmt], [])
  }

  /** Worked examples of the lines that keep the variable's value, for any
      identifier: `$x = 1`, `$x++`, a bare `$x[0].Name`, and a function definition. */
  lemma ExemptCommandLinesKeep(identifier: string)
    ensures KeepLastValue(Some(OneStatement(
      AssignmentStatementAst("$x = 1", VariableExpressionAst("$x"), OtherAst("1", [])))), identifier)
    ensures KeepLastValue(Some(OneStatement(
      PipelineAst("$x++", [CommandExpressionAst("$x++",
        UnaryExpressionAst("$x++", PostfixPlusPlus, VariableExpressionAst("$x")))]))), identifier)
    ensures KeepLastValue(Some(OneStatement(
      PipelineAst("$x[0].Name", [CommandExpressionAst("$x[0].Name",
        MemberExpressionAst("$x[0].Name",
          IndexExpressionAst("$x[0]", VariableExpressionAst("$x"), OtherAst("0", [])),
          OtherAst("Name", [])))]))), identifier)
    ensures KeepLastValue(Some(OneStatement(
      FunctionDefinitionAst("function f { 1 }", OtherAst("{ 1 }", [])))), identifier)
  {
    var member := MemberExpressionAst("$x[0].Name",
      IndexExpressionAst("$x[0]", VariableExpressionAst("$x"), OtherAst("0", [])), OtherAst("Name", []));
    assert RootIsVariable(member);
  }

  /** A bare command such as `Get-ChildItem` refreshes the variable, whatever its
      identifier: the one statement is not exempt and no node names a variable. */
  lemma BareCommandRefreshes(identifier: string)
    ensures !KeepLastValue(Some(OneStatement(
      PipelineAst("Get-ChildItem", [OtherAst("Get-ChildItem", [OtherAst("Get-ChildItem", [])])]))), identifier)
  {
    var name := OtherAst("Get-ChildItem", []);
    var command := OtherAst("Get-ChildItem", [name]);
    var pipeline := PipelineAst("Get-ChildItem", [command]);
    assert !Mentions(name, identifier);
    assert !Mentions(command, identifier) by {
      assert forall i :: 0 <= i < |command.children| ==> command.children[i] == name;
    }
    assert !Mentions(pipeline, identifier) by {
      assert forall i :: 0 <= i < |pipeline.pipelineElements| ==> pipeline.pipelineElements[i] == command;
    }
    var root := OneStatement(pipeline);
    assert !Mentions(root, identifier) by {
      assert forall i :: 0 <= i < |root.endBlock| ==> root.endBlock[i] == pipeline;
    }
    assert !IsExempt(root.endBlock[0]);
  }

  /** `Get-ChildItem; $x = 1` refreshes the variable unless its identifier is `$x`:
      the first statement is not exempt. */
  lemma MixedLineRefreshes(identifier: string)
    requires !EqualsIgnoreCase("$x", identifier)
    ensures !KeepLastValue(Some(ScriptBlockAst("Get-ChildItem; $x = 1", true,
      [PipelineAst("Get-ChildItem", [OtherAst("Get-ChildItem", [])]),
       AssignmentStatementAst("$x = 1", VariableExpressionAst("$x"), OtherAst("1", []))], [])), identifier)
  {
    var name := OtherAst("Get-ChildItem", []);
    var pipeline := PipelineAst("Get-ChildItem", [name]);
    var x := VariableExpressionAst("$x");
    var one := OtherAst("1", []);
    var assign := AssignmentStatementAst("$x = 1", x, one);
    var root := ScriptBlockAst("Get-ChildItem; $x = 1", true, [pipeline, assign], []);
    assert !Mentions(name, identifier);
    assert !Mentions(pipeline, identifier) by {
      assert forall i :: 0 <= i < |pipeline.pipelineElements| ==> pipeline.pipelineElements[i] == name;
    }
    assert !Mentions(x, identifier);
    assert !Mentions(one, identifier);
    assert !Mentions(assign, identifier);
    assert !Mentions(root, identifier) by {
      assert forall i :: 0 <= i < |root.endBlock| ==> root.endBlock[i] == pipeline || root.endBlock[i] == assign;
    }
    assert !IsExempt(root.endBlock[0]);
  }

  /** Case-insensitive equality is symmetric and transitive. */
  lemma EqualsIgnoreCaseTrans(a: string, b: string, c: string)
    requires EqualsIgnoreCase(a, b)
    ensures EqualsIgnoreCase(b, c) <==> EqualsIgnoreCase(a, c)
  {
  }

  /** Whether a tree refers to the variable does not depend on how the identifier is
      cased. */
  lemma {:induction false} MentionsIgnoresCase(a: Ast, x: string, y: string)
    requires EqualsIgnoreCase(x, y)
    ensures Mentions(a, x) <==> Mentions(a, y)
  {
    EqualsIgnoreCaseTrans(y, x, a.extent);
    if a.IndexExpressionAst? {
      EqualsIgnoreCaseTrans(y, x, a.target.extent);
    }
    match a
    case ScriptBlockAst(_, _, endBlock, otherBlocks) =>
      forall i | 0 <= i < |endBlock| ensures Mentions(endBlock[i], x) <==> Mentions(endBlock[i], y) {
        MentionsIgnoresCase(endBlock[i], x, y);
      }
      forall i | 0 <= i < |otherBlocks| ensures Mentions(otherBlocks[i], x) <==> Mentions(otherBlocks[i], y) {
        MentionsIgnoresCase(otherBlocks[i], x, y);
      }
    case AssignmentStatementAst(_, left, right) =>
      MentionsIgnoresCase(left, x, y);
      MentionsIgnoresCase(right, x, y);
    case FunctionDefinitionAst(_, body) =>
      MentionsIgnoresCase(body, x, y);
    case PipelineAst(_, elements) =>
      forall i | 0 <= i < |elements| ensures Mentions(elements[i], x) <==> Mentions(elements[i], y) {
        MentionsIgnoresCase(elements[i], x, y);
      }
    case CommandExpressionAst(_, expression) =>
      MentionsIgnoresCase(expression, x, y);
    case UnaryExpressionAst(_, _, child) =>
      MentionsIgnoresCase(child, x, y);
    case IndexExpressionAst(_, target, index) =>
      MentionsIgnoresCase(target, x, y);
      MentionsIgnoresCase(index, x, y);
    case MemberExpressionAst(_, expression, member) =>
      MentionsIgnoresCase(expression, x, y);
      MentionsIgnoresCase(member, x, y);
    case VariableExpressionAst(_) =>
    case OtherAst(_, children) =>
      forall i | 0 <= i < |children| ensures Mentions(children[i], x) <==> Mentions(children[i], y) {
        MentionsIgnoresCase(children[i], x, y);
      }
  }

  /** A statement that mentions the variable makes the whole command line keep it. */
  lemma StatementMentionKeeps(root: ScriptBlock, k: nat, identifier: string)
    requires root.hasEndBlock && k < |root.endBlock|
    requires Mentions(root.endBlock[k], identifier)
    ensures KeepLastValue(Some(root), identifier)
  {
  }

  /** The do-while of the classification: unwrap index targets and member owners
      until a variable is reached or the expression is of another kind. */
  method UnwrapToVariable(expression: Ast) returns (isVariable: bool)
    ensures isVariable == RootIsVariable(expression)
  {
    var expRoot := expression;
    var isNull := false;   // the `as VariableExpressionAst` conversion failed
    var stop := false;
    while !stop
      invariant !isNull ==> RootIsVariable(expRoot) == RootIsVariable(expression)
      invariant isNull ==> !RootIsVariable(expression)
      invariant stop ==> isNull || expRoot.VariableExpressionAst?
      decreases expRoot, if stop then 0 else 1
    {
      if expRoot.IndexExpressionAst? {
        expRoot := expRoot.target;
      } else if expRoot.MemberExpressionAst? {
        expRoot := expRoot.expression;
      } else if !expRoot.VariableExpressionAst? {
        isNull := true;
      }
      stop := isNull || expRoot.VariableExpressionAst?;
    }
    isVariable := !isNull && expRoot.VariableExpressionAst?;
  }

  /** The body of the statement loop: does one statement leave the variable alone? */
  method StatementIsExempt(stmt: Ast) returns (exempt: bool)
    ensures exempt == IsExempt(stmt)
  {
    if stmt.AssignmentStatementAst? || stmt.FunctionDefinitionAst? {
      return true;
    }
    exempt := false;
    if stmt.PipelineAst? && |stmt.pipelineElements| == 1 {
      var element := stmt.pipelineElements[0];
      if element.CommandExpressionAst? {
        var e := element.expression;
        if e.UnaryExpressionAst? {
          exempt := IsIncrementOrDecrement(e.tokenKind);
        } else {
          exempt := UnwrapToVariable(e);
        }
      }
    }
  }

  /** The two-stage decision of EndProcessing: scan the statements, stopping at the
      first one that is not exempt, then search the tree for the variable. */
  method ClassifyKeep(root: Option<ScriptBlock>, identifier: string) returns (keep: bool)
    ensures keep == KeepLastValue(root, identifier)
  {
    keep := root.None? || !root.value.hasEndBlock || |root.value.endBlock| == 0;
    if !keep {
      var statements := root.value.endBlock;
      keep := true;
      var index := 0;
      while index < |statements|
        invariant 0 <= index <= |statements|
        invariant keep == forall i :: 0 <= i < index ==> IsExempt(statements[i])
      {
        var exempt := StatementIsExempt(statements[index]);
        if exempt {
          index := index + 1;
          continue;
        }
        keep := false;
        break;
      }
      if !keep {
        keep := Mentions(root.value, identifier);
      }
    }
  }

  // ---------------------------------------------------------------------------
  // Assigning the "last result" variable

  /** What EndProcessing does to the variable. */
  datatype VariableWrite =
    | NoWrite
    | SetNull
    | SetItem(item: PSObject)
    | SetArray(items: seq<PSObject>)

  /** The assignment rule. The captured collection only ever receives non-null
      objects, so the "single null item" case of the source cannot arise. */
  function Assignment(keep: bool, captured: seq<PSObject>, config: CaptureOutputConfiguration): (w: VariableWrite)
    ensures keep ==> w == NoWrite
    ensures w == SetNull <==> !keep && |captured| == 0 && config.captureNull
    ensures w.SetItem? <==> !keep && |captured| == 1 && (!IsValueType(captured[0]) || config.captureValueTypes)
    ensures w.SetItem? ==> w.item == captured[0]
    ensures w.SetArray? <==> !keep && |captured| > 1
    ensures w.SetArray? ==> w.items == captured
  {
    if keep then NoWrite
    else if |captured| == 0 then (if config.captureNull then SetNull else NoWrite)
    else if |captured| == 1 then
      (if !IsValueType(captured[0]) || config.captureValueTypes then SetItem(captured[0]) else NoWrite)
    else SetArray(captured)
  }

  /** Under the default settings a lone value-type result and an empty result leave
      the variable untouched. */
  lemma DefaultSkipsValuesAndNull(o: PSObject)
    requires IsValueType(o)
    ensures Assignment(false, [o], Default()) == NoWrite
    ensures Assignment(false, [], Default()) == NoWrite
  {
  }

  // ---------------------------------------------------------------------------
  // Slicing the session's error log against the watermark

  /** Entries of these kinds are never attributed to a command. */
  predicate Skipped(e: ErrorLogEntry) {
    e.ExceptionEntry? && (e.kind.IncompleteParseException? || e.kind.ActionPreferenceStopException?)
  }

  /** The entry is the one the watermark marks. */
  predicate AtWatermark(e: ErrorLogEntry, watermark: int) {
    watermark != -1 && e.hashCode == watermark
  }

  /** The entries, newest first as the log holds them, that precede the watermark
      entry and are not of a skipped kind. */
  function Collected(log: seq<ErrorLogEntry>, watermark: int): seq<ErrorLogEntry> {
    if log == [] || AtWatermark(log[0], watermark) then []
    else if Skipped(log[0]) then Collected(log[1..], watermark)
    else [log[0]] + Collected(log[1..], watermark)
  }

  /** What is collected are log entries, of a kind that is not skipped, other than the
      watermark entry, and no more of them than the log holds. */
  lemma {:induction false} CollectedFromLog(log: seq<ErrorLogEntry>, watermark: int)
    ensures |Collected(log, watermark)| <= |log|
    ensures forall e :: e in Collected(log, watermark) ==> e in log && !Skipped(e) && !AtWatermark(e, watermark)
  {
    if log != [] && !AtWatermark(log[0], watermark) {
      CollectedFromLog(log[1..], watermark);
    }
  }

  /** Nothing at or after the first watermark entry is collected. */
  lemma {:induction false} CollectedStopsAtWatermark(log: seq<ErrorLogEntry>, watermark: int, k: nat)
    requires k < |log| && AtWatermark(log[k], watermark)
    ensures Collected(log, watermark) == Collected(log[..k], watermark)
  {
    if k == 0 {
      assert log[..k] == [];
    } else {
      assert log[..k][0] == log[0];
      assert log[..k][1..] == log[1..][..k - 1];
      CollectedStopsAtWatermark(log[1..], watermark, k - 1);
    }
  }

  /** Without a watermark, every entry of a kind that is not skipped is collected. */
  lemma {:induction false} CollectedWithoutWatermark(log: seq<ErrorLogEntry>)
    ensures forall e :: e in log && !Skipped(e) ==> e in Collected(log, -1)
  {
    if log != [] {
      CollectedWithoutWatermark(log[1..]);
      assert forall e :: e in log ==> e == log[0] || e in log[1..];
    }
  }

  /** Slicing again with the newest collected entry as the watermark collects
      nothing, as long as the log has not grown. */
  lemma {:induction false} SliceAgainIsEmpty(log: seq<ErrorLogEntry>, watermark: int)
    requires Collected(log, watermark) != []
    requires Collected(log, watermark)[0].hashCode != -1
    ensures Collected(log, Collected(log, watermark)[0].hashCode) == []
  {
    var h := Collected(log, watermark)[0].hashCode;
    if Skipped(log[0]) && !AtWatermark(log[0], watermark) && !AtWatermark(log[0], h) {
      SliceAgainIsEmpty(log[1..], watermark);
    }
  }

  /** Why SliceAgainIsEmpty needs its second requirement: an entry whose hash code is
      -1 moves the watermark to -1, which reads as "no watermark", so a second slice
      collects the entry again. */
  lemma MinusOneHashSlicesAgain(watermark: int)
    requires watermark != -1
    ensures var log := [RecordEntry(-1)];
      && Collected(log, watermark) == log
      && Collected(log, Collected(log, watermark)[0].hashCode) == log
  {
    var log := [RecordEntry(-1)];
    assert log[1..] == [];
  }

  /** A log entry as an output object. */
  function Wrap(e: ErrorLogEntry): (o: PSObject)
    ensures o.baseObject == ErrorLogEntryObject(e)
  {
    PSObject(ErrorLogEntryObject(e), [], {})
  }

  /** Wrap each entry, keeping the order. */
  function WrapAll(s: seq<ErrorLogEntry>): (r: seq<PSObject>)
    ensures |r| == |s|
    ensures forall i :: 0 <= i < |s| ==> r[i] == Wrap(s[i])
  {
    seq(|s|, i requires 0 <= i < |s| => Wrap(s[i]))
  }

  /** One step of the error loop: an entry before the watermark is collected unless
      it is of a skipped kind. */
  lemma CollectedStep(log: seq<ErrorLogEntry>, i: nat, watermark: int)
    requires i < |log| && !AtWatermark(log[i], watermark)
    ensures Collected(log[i..], watermark)
      == (if Skipped(log[i]) then [] else [log[i]]) + Collected(log[i + 1..], watermark)
  {
    assert log[i..][1..] == log[i + 1..];
  }

  /** Wrapping one more entry adds its wrapper at the end. */
  lemma WrapAllSnoc(s: seq<ErrorLogEntry>, x: ErrorLogEntry)
    ensures WrapAll(s + [x]) == WrapAll(s) + [Wrap(x)]
  {
    assert |WrapAll(s + [x])| == |WrapAll(s) + [Wrap(x)]|;
    forall k | 0 <= k < |s| + 1 ensures WrapAll(s + [x])[k] == (WrapAll(s) + [Wrap(x)])[k] {
      if k < |s| {
        assert (s + [x])[k] == s[k];
      }
    }
  }

  /** The error loop of EndProcessing: walk the log, newest first, up to the watermark
      entry, and wrap every entry that is not of a skipped kind. */
  method CollectErrors(log: seq<ErrorLogEntry>, watermark: int) returns (commandErrors: seq<PSObject>)
    ensures commandErrors == WrapAll(Collected(log, watermark))
  {
    commandErrors := [];
    ghost var taken: seq<ErrorLogEntry> := [];
    var i := 0;
    while i < |log|
      invariant 0 <= i <= |log|
      invariant taken + Collected(log[i..], watermark) == Collected(log, watermark)
      invariant commandErrors == WrapAll(taken)
    {
      if AtWatermark(log[i], watermark) {
        assert Collected(log[i..], watermark) == [] by {
          assert log[i..][0] == log[i];
        }
        break;
      }
      CollectedStep(log, i, watermark);
      if !Skipped(log[i]) {
        WrapAllSnoc(taken, log[i]);
        commandErrors := commandErrors + [Wrap(log[i])];
        taken := taken + [log[i]];
      }
      i := i + 1;
    }
    assert taken == Collected(log, watermark) by {
      if i == |log| {
        assert log[i..] == [];
      }
    }
  }

  /** The errors EndProcessing records, oldest first, and the watermark moved to the
      newest collected entry. */
  method SliceErrors(log: seq<ErrorLogEntry>, watermark: int) returns (errors: seq<PSObject>, newWatermark: int)
    ensures errors == Reverse(WrapAll(Collected(log, watermark)))
    ensures Collected(log, watermark) != [] ==> newWatermark == Collected(log, watermark)[0].hashCode
    ensures Collected(log, watermark) == [] ==> newWatermark == watermark
  {
    var commandErrors := CollectErrors(log, watermark);
    newWatermark := watermark;
    if |commandErrors| > 0 {
      newWatermark := commandErrors[0].baseObject.entry.hashCode;
      errors := Reverse(commandErrors);
    } else {
      errors := commandErrors;
    }
  }

  // ---------------------------------------------------------------------------
  // The warning inserted when history objects were omitted

  /** The decimal digit for 0..9. */
  function Digit(d: nat): (c: char)
    requires d < 10
    ensures '0' <= c <= '9' && c as int - '0' as int == d
  {
    ('0' as int + d) as char
  }

  /** The decimal text of a count, as the format string renders it. */
  function DecimalString(n: nat): (r: string)
    ensures |r| >= 1 && (n >= 10 ==> r[0] != '0')
    ensures forall i :: 0 <= i < |r| ==> '0' <= r[i] <= '9'
  {
    if n < 10 then [Digit(n)] else DecimalString(n / 10) + [Digit(n % 10)]
  }

  /** The value of a string of decimal digits. */
  function DecimalValue(s: string): nat
    requires forall i :: 0 <= i < |s| ==> '0' <= s[i] <= '9'
  {
    if s == [] then 0 else 10 * DecimalValue(s[..|s| - 1]) + (s[|s| - 1] as int - '0' as int)
  }

  /** The rendered count reads back as the count. */
  lemma {:induction false} DecimalRoundTrip(n: nat)
    ensures DecimalValue(DecimalString(n)) == n
  {
    if n >= 10 {
      DecimalRoundTrip(n / 10);
      var r := DecimalString(n);
      assert r[..|r| - 1] == DecimalString(n / 10);
    }
  }

  const WriteErrorStream: string := "writeErrorStream"
  const WriteWarningStream: string := "writeWarningStream"

  /** The warning placed at the front of the retained output when `omitted` history
      objects were left out; it carries the warning-stream note property. */
  function OmissionWarning(omitted: nat): (w: PSObject)
    ensures w.baseObject.WarningObject? && WriteWarningStream in w.properties
    ensures w.baseObject.message == "<Omitting " + DecimalString(omitted) + " history information objects>"
  {
    PSObject(WarningObject("<Omitting " + DecimalString(omitted) + " history information objects>"),
             ["System.Management.Automation.WarningRecord", "System.Management.Automation.InformationalRecord",
              "System.Object"], {WriteWarningStream})
  }

  // ---------------------------------------------------------------------------
  // Per-input rules of ProcessRecord

  /** The error record an input object holds: the object itself when it wraps one,
      or the ErrorRecord property of an object that contains one. */
  function ErrorRecordOf(o: PSObject): (r: Option<ErrorRecord>)
    ensures r.Some? ==> o.baseObject.ErrorRecordObject? || o.baseObject.ContainsErrorRecordObject?
    ensures o.baseObject.ErrorRecordObject? ==> r == Some(o.baseObject.record)
    ensures o.baseObject.ContainsErrorRecordObject? ==> r == o.baseObject.errorRecord
  {
    match o.baseObject
    case ErrorRecordObject(record) => Some(record)
    case ContainsErrorRecordObject(errorRecord) => errorRecord
    case _ => None
  }

  /** The input is an error record on its way to the error stream. */
  predicate IsErrorStreamRecord(o: PSObject) {
    ErrorRecordOf(o).Some? && WriteErrorStream in o.properties
  }

  /** History objects are never retained in the extended history. */
  predicate IsHistoryObject(o: PSObject) {
    o.baseObject.HistoryInfoObject? || o.baseObject.ExtendedHistoryInfoObject?
  }

  /** An error with no history id belongs to the previous command line when it was
      raised by a throw statement or wraps a parent's error record. */
  predicate FromPreviousCommand(e: Exception) {
    (IsRuntimeException(e.kind) && e.wasThrownFromThrowStatement) || e.kind.ParentContainsErrorRecordException?
  }

  /** The input is bound, present and not an error-stream record, so it counts as output. */
  predicate IsOutput(inputBound: bool, inputObject: Option<PSObject>) {
    inputBound && inputObject.Some? && !IsErrorStreamRecord(inputObject.value)
  }

  /** The command line being recorded. Its fields change across the three phases;
      the history table is the shared static one. */
  class OutDefaultCommand {
    const table: ExtendedHistoryTable
    var historicalOutput: seq<PSObject>
    var capturedOutput: seq<PSObject>
    var adjustHistoryId: bool
    var removedObjectCount: nat
    var removedHistoryInfoCount: nat
    var historyId: int
    var pipelineAst: Option<ScriptBlock>

    /** The field initialisers. */
    constructor (table: ExtendedHistoryTable)
      ensures this.table == table
      ensures historicalOutput == [] && capturedOutput == [] && !adjustHistoryId
      ensures removedObjectCount == 0 && removedHistoryInfoCount == 0
      ensures historyId == -1 && pipelineAst == None
    {
      this.table := table;
      historicalOutput := [];
      capturedOutput := [];
      adjustHistoryId := false;
      removedObjectCount := 0;
      removedHistoryInfoCount := 0;
      historyId := -1;
      pipelineAst := None;
    }

    /** Reset the helpers and take the invocation's history id and the current
        pipeline's tree (null when it cannot be obtained). */
    method BeginProcessing(invocationHistoryId: int, currentPipelineAst: Option<ScriptBlock>)
      modifies this
      ensures historicalOutput == [] && capturedOutput == [] && !adjustHistoryId
      ensures removedObjectCount == 0 && removedHistoryInfoCount == 0
      ensures historyId == invocationHistoryId && pipelineAst == currentPipelineAst
    {
      historicalOutput := [];
      capturedOutput := [];
      adjustHistoryId := false;
      removedObjectCount := 0;
      removedHistoryInfoCount := 0;
      historyId := invocationHistoryId;
      pipelineAst := currentPipelineAst;
    }

    /** Route one input: an error-stream record only corrects the history id; any
        other input is retained (up to the per-entry maximum) or counted as removed,
        and is captured when the capture list has room and the filter admits it. */
    method ProcessRecord(inputBound: bool, inputObject: Option<PSObject>, config: CaptureOutputConfiguration)
      modifies this
      ensures pipelineAst == old(pipelineAst)
      ensures historyId <= old(historyId)
      // every output input is accounted for exactly once
      ensures |historicalOutput| + removedObjectCount + removedHistoryInfoCount
        == old(|historicalOutput| + removedObjectCount + removedHistoryInfoCount)
           + (if IsOutput(inputBound, inputObject) then 1 else 0)
      ensures !(inputBound && inputObject.Some?) ==>
        && historicalOutput == old(historicalOutput) && capturedOutput == old(capturedOutput)
        && removedObjectCount == old(removedObjectCount) && removedHistoryInfoCount == old(removedHistoryInfoCount)
        && adjustHistoryId == old(adjustHistoryId) && historyId == old(historyId)
      ensures inputBound && inputObject.Some? && IsErrorStreamRecord(inputObject.value) ==>
        var er := ErrorRecordOf(inputObject.value).value;
        && historicalOutput == old(historicalOutput) && capturedOutput == old(capturedOutput)
        && removedObjectCount == old(removedObjectCount) && removedHistoryInfoCount == old(removedHistoryInfoCount)
        && adjustHistoryId == (old(adjustHistoryId) ||
             (er.invocationInfo.Some? && er.invocationInfo.value.historyId == -1 && FromPreviousCommand(er.exception)))
        && historyId == (if er.invocationInfo.Some? && er.invocationInfo.value.historyId != -1
                            && er.invocationInfo.value.historyId < old(historyId)
                         then er.invocationInfo.value.historyId else old(historyId))
      ensures IsOutput(inputBound, inputObject) ==>
        var o := inputObject.value;
        && adjustHistoryId == old(adjustHistoryId) && historyId == old(historyId)
        && (IsHistoryObject(o) ==>
              historicalOutput == old(historicalOutput) && removedObjectCount == old(removedObjectCount)
              && removedHistoryInfoCount == old(removedHistoryInfoCount) + 1)
        && (!IsHistoryObject(o) && old(|historicalOutput|) < table.maximumItemCountPerEntry ==>
              historicalOutput == old(historicalOutput) + [o] && removedObjectCount == old(removedObjectCount)
              && removedHistoryInfoCount == old(removedHistoryInfoCount))
        && (!IsHistoryObject(o) && old(|historicalOutput|) >= table.maximumItemCountPerEntry ==>
              historicalOutput == old(historicalOutput) && removedObjectCount == old(removedObjectCount) + 1
              && removedHistoryInfoCount == old(removedHistoryInfoCount))
        && capturedOutput == old(capturedOutput) +
             (if |old(capturedOutput)| < config.maximumItemCount && Admitted(config.excludedTypes, o.typeNames)
              then [o] else [])
      // the retained output never exceeds the per-entry maximum and holds no history object
      ensures old(|historicalOutput|) <= table.maximumItemCountPerEntry ==>
        |historicalOutput| <= table.maximumItemCountPerEntry
      ensures (forall i :: 0 <= i < old(|historicalOutput|) ==> !IsHistoryObject(old(historicalOutput[i]))) ==>
        forall i :: 0 <= i < |historicalOutput| ==> !IsHistoryObject(historicalOutput[i])
    {
      if inputBound && inputObject.Some? {
        var o := inputObject.value;
        var errorRecord := ErrorRecordOf(o);
        if errorRecord.Some? && WriteErrorStream in o.properties {
          var info := errorRecord.value.invocationInfo;
          if info.Some? {
            if info.value.historyId == -1 {
              if FromPreviousCommand(errorRecord.value.exception) {
                adjustHistoryId := true;
              }
            } else if info.value.historyId < historyId {
              historyId := info.value.historyId;
            }
          }
        } else {
          if !IsHistoryObject(o) {
            if |historicalOutput| < table.maximumItemCountPerEntry {
              historicalOutput := historicalOutput + [o];
            } else {
              removedObjectCount := removedObjectCount + 1;
            }
          } else {
            removedHistoryInfoCount := removedHistoryInfoCount + 1;
          }
          if |capturedOutput| < config.maximumItemCount && Admitted(config.excludedTypes, o.typeNames) {
            capturedOutput := capturedOutput + [o];
          }
        }
      }
    }

    /** Finish the command line: correct the history id, count the output, put the
        omission warning first, refresh the variable, take the errors logged since the
        watermark, decide success, and record the execution unless the module is being
        removed (in which case the flag is reset and nothing is recorded). Of the
        command's fields only the id and the retained output change; of the records,
        only the one filed under the final id, and none while the module is removed. */
    method EndProcessing(commandSucceeded: bool, errorLog: seq<ErrorLogEntry>, config: CaptureOutputConfiguration)
      returns (write: VariableWrite)
      requires table.Valid() && table.maximumEntryCount >= 0 && table.CollectionsPresent()
      modifies this`historyId, this`historicalOutput, table
      modifies var finalId := if adjustHistoryId then historyId - 1 else historyId;
        if !table.onRemove && finalId in table.records then {table.records[finalId]} else {}
      ensures historyId == old(historyId) - (if old(adjustHistoryId) then 1 else 0)
      ensures historicalOutput ==
        (if old(removedHistoryInfoCount) > 0 then [OmissionWarning(old(removedHistoryInfoCount))] else [])
        + old(historicalOutput)
      ensures write == Assignment(KeepLastValue(old(pipelineAst), PowerShellVariableIdentifier(config.variableName)),
                                  old(capturedOutput), config)
      ensures var collected := Collected(errorLog, old(table.watermark));
        table.watermark == if collected != [] then collected[0].hashCode else old(table.watermark)
      ensures table.Valid() && table.CollectionsPresent() && !table.onRemove
      ensures table.maximumEntryCount == old(table.maximumEntryCount)
      ensures table.maximumItemCountPerEntry == old(table.maximumItemCountPerEntry)
      ensures old(table.onRemove) ==> table.order == old(table.order) && table.records == old(table.records)
      ensures !old(table.onRemove) ==>
        table.order == OrderAfterAdd(old(table.order), historyId, old(table.maximumEntryCount))
      // every record filed under another id stays as it was
      ensures forall k :: k in table.records && k != historyId ==>
        && k in old(table.records) && table.records[k] == old(table.records[k])
        && table.records[k].output == old(table.records[k].output) && table.records[k].outputCount == old(table.records[k].outputCount)
        && table.records[k].error == old(table.records[k].error)
      ensures !old(table.onRemove) && historyId in table.records ==>
        var outputCount := old(|historicalOutput| + removedHistoryInfoCount + removedObjectCount);
        var errors := Reverse(WrapAll(Collected(errorLog, old(table.watermark))));
        var r := table.records[historyId];
        if historyId in old(table.records) then
          && r == old(table.records)[historyId]
          && r.output == Some(old(r.output.value) + historicalOutput)
          && r.outputCount == old(r.outputCount) + outputCount
          && r.error == Some(old(r.error.value) + errors)
        else
          && fresh(r) && r.commandSuccessful == Some(commandSucceeded || (outputCount == 0 && errors == []))
          && r.output == Some(historicalOutput) && r.outputCount == outputCount && r.error == Some(errors)
    {
      // The steps on this command's own fields commute with those on the table, so
      // the fields are assigned first and the table is updated at the end.
      var finalId := if adjustHistoryId then historyId - 1 else historyId;
      var output, outputCount, errors, newWatermark := Summarize(errorLog);
      write := LastValueWrite(config);
      Commit(finalId, output);
      RecordExecution(newWatermark, finalId, commandSucceeded, output, outputCount, errors);
    }

    /** The command's own side of EndProcessing: the final id and the recorded output. */
    method Commit(finalId: int, output: seq<PSObject>)
      modifies this`historyId, this`historicalOutput
      ensures historyId == finalId && historicalOutput == output
    {
      historyId := finalId;
      historicalOutput := output;
    }

    /** The update of the "last result" variable: none when the command line keeps
        its value, otherwise what the assignment rule makes of the captured output. */
    method LastValueWrite(config: CaptureOutputConfiguration) returns (write: VariableWrite)
      ensures write == Assignment(KeepLastValue(pipelineAst, PowerShellVariableIdentifier(config.variableName)),
                                  capturedOutput, config)
    {
      var keep := ClassifyKeep(pipelineAst, PowerShellVariableIdentifier(config.variableName));
      write := Assignment(keep, capturedOutput, config);
    }

    /** What EndProcessing records: the retained output behind the omission warning,
        the count of everything output, the command's errors and the new watermark. */
    method Summarize(errorLog: seq<ErrorLogEntry>)
      returns (output: seq<PSObject>, outputCount: int, errors: seq<PSObject>, newWatermark: int)
      ensures output ==
        (if removedHistoryInfoCount > 0 then [OmissionWarning(removedHistoryInfoCount)] else []) + historicalOutput
      ensures outputCount == |historicalOutput| + removedHistoryInfoCount + removedObjectCount
      ensures errors == Reverse(WrapAll(Collected(errorLog, table.watermark)))
      ensures var collected := Collected(errorLog, table.watermark);
        newWatermark == if collected != [] then collected[0].hashCode else table.watermark
    {
      outputCount := |historicalOutput| + removedHistoryInfoCount + removedObjectCount;
      output := historicalOutput;
      if removedHistoryInfoCount > 0 {
        output := [OmissionWarning(removedHistoryInfoCount)] + output;
      }
      errors, newWatermark := SliceErrors(errorLog, table.watermark);
    }

    /** The table side of EndProcessing: move the watermark, then reset the removal
        flag or add the record, whose success flag is the shell's flag or, for a
        command with neither output nor errors, true. */
    method RecordExecution(newWatermark: int, id: int, commandSucceeded: bool, output: seq<PSObject>, outputCount: int,
                           errors: seq<PSObject>)
      requires table.Valid() && table.maximumEntryCount >= 0 && table.CollectionsPresent()
      modifies table, if !table.onRemove && id in table.records then {table.records[id]} else {}
      ensures table.Valid() && table.CollectionsPresent() && !table.onRemove && table.watermark == newWatermark
      ensures table.maximumEntryCount == old(table.maximumEntryCount)
      ensures table.maximumItemCountPerEntry == old(table.maximumItemCountPerEntry)
      // no record other than the one added to, and none at all while removing, changes
      ensures forall k :: k in table.records && k != id ==>
        && k in old(table.records) && table.records[k] == old(table.records[k])
        && table.records[k].output == old(table.records[k].output) && table.records[k].outputCount == old(table.records[k].outputCount)
        && table.records[k].error == old(table.records[k].error)
      ensures old(table.onRemove) ==> table.order == old(table.order) && table.records == old(table.records)
      ensures old(table.onRemove) ==> forall k :: k in table.records ==>
        && table.records[k].output == old(table.records[k].output) && table.records[k].outputCount == old(table.records[k].outputCount)
        && table.records[k].error == old(table.records[k].error)
      ensures !old(table.onRemove) ==> table.order == OrderAfterAdd(old(table.order), id, old(table.maximumEntryCount))
      ensures !old(table.onRemove) && id in table.records ==>
        var r := table.records[id];
        if id in old(table.records) then
          && r == old(table.records)[id]
          && r.output == Some(old(r.output.value) + output)
          && r.outputCount == old(r.outputCount) + outputCount
          && r.error == Some(old(r.error.value) + errors)
        else
          && fresh(r) && r.commandSuccessful == Some(commandSucceeded || (outputCount == 0 && errors == []))
          && r.output == Some(output) && r.outputCount == outputCount && r.error == Some(errors)
    {
      if table.onRemove {
        table.EndRemoval(newWatermark);
        return;
      } else {
        var success := commandSucceeded;
        if outputCount == 0 && |errors| == 0 {
          success := true;
        }
        table.Add(id, Some(success), Some(output), outputCount, Some(errors));
        table.MoveWatermark(newWatermark);
      }
    }
  }
}
