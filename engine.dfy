/** Abstract stand-ins for the shell engine's values that the capture logic inspects:
    output objects with their type names, error records, entries of the session's
    error log, and the parsed statement tree of the command line. Only the facets the
    logic tests are kept: a kind tag, type names, a value-type flag and a hash code. */
module Engine {
  import opened Wrappers

  /** The exception classes the logic distinguishes. */
  datatype ExceptionKind =
    | RuntimeException
    | IncompleteParseException        // derives from RuntimeException
    | ActionPreferenceStopException   // derives from RuntimeException
    | ParentContainsErrorRecordException
    | OtherException

  /** `kind` is RuntimeException or one of its subclasses. */
  predicate IsRuntimeException(kind: ExceptionKind) {
    kind.RuntimeException? || kind.IncompleteParseException? || kind.ActionPreferenceStopException?
  }

  datatype Exception = Exception(kind: ExceptionKind, wasThrownFromThrowStatement: bool)

  datatype InvocationInfo = InvocationInfo(historyId: int)

  datatype ErrorRecord = ErrorRecord(exception: Exception, invocationInfo: Option<InvocationInfo>)

  /** One entry of the session's error log: an error record or a bare exception,
      with the hash code the engine reports for it. */
  datatype ErrorLogEntry =
    | RecordEntry(hashCode: int)
    | ExceptionEntry(kind: ExceptionKind, hashCode: int)

  /** What a pipeline object wraps. */
  datatype BaseObject =
    | HistoryInfoObject(historyId: int)
    | ExtendedHistoryInfoObject(historyId: int)
    | ErrorRecordObject(record: ErrorRecord)
    // an object implementing IContainsErrorRecord; the value of its ErrorRecord property
    | ContainsErrorRecordObject(errorRecord: Option<ErrorRecord>)
    // an error-log entry wrapped for the recorded errors; such wrappers are only
    // stored in the history table and never reach the command's input, so the
    // error-record tests on input objects need not recognise them
    | ErrorLogEntryObject(entry: ErrorLogEntry)
    | WarningObject(message: string)
    | OtherObject(isValueType: bool, hashCode: int)

  /** A pipeline object: the wrapped value, its type names and its note properties. */
  datatype PSObject = PSObject(baseObject: BaseObject, typeNames: seq<string>, properties: set<string>)

  /** The run-time type of the wrapped value is a value type. */
  predicate IsValueType(o: PSObject) {
    o.baseObject.OtherObject? && o.baseObject.isValueType
  }

  /** The unary operator tokens the classification tells apart. */
  datatype TokenKind = PlusPlus | MinusMinus | PostfixPlusPlus | PostfixMinusMinus | OtherToken

  /** The parsed statement tree. Every node carries the source text of its extent.
      MemberExpressionAst also stands for method invocations, which derive from it. */
  datatype Ast =
    // hasEndBlock false: the end block is null; endBlock: its statements
    | ScriptBlockAst(extent: string, hasEndBlock: bool, endBlock: seq<Ast>, otherBlocks: seq<Ast>)
    | AssignmentStatementAst(extent: string, left: Ast, right: Ast)
    | FunctionDefinitionAst(extent: string, body: Ast)
    | PipelineAst(extent: string, pipelineElements: seq<Ast>)
    | CommandExpressionAst(extent: string, expression: Ast)
    | UnaryExpressionAst(extent: string, tokenKind: TokenKind, child: Ast)
    | IndexExpressionAst(extent: string, target: Ast, index: Ast)
    | MemberExpressionAst(extent: string, expression: Ast, member: Ast)
    | VariableExpressionAst(extent: string)
    | OtherAst(extent: string, children: seq<Ast>)

  /** The root of a command line's tree is a script block. */
  type ScriptBlock = a: Ast | a.ScriptBlockAst? witness ScriptBlockAst("", false, [], [])

  /** ASCII case folding of one character. */
  function ToLower(c: char): (r: char)
    ensures 'A' <= c <= 'Z' ==> r as int == c as int + 32
    ensures !('A' <= c <= 'Z') ==> r == c
  {
    if 'A' <= c <= 'Z' then (c as int + 32) as char else c
  }

  /** Case-insensitive string equality, as `string.Compare(a, b, true) == 0`. */
  predicate EqualsIgnoreCase(a: string, b: string) {
    |a| == |b| && forall i :: 0 <= i < |a| ==> ToLower(a[i]) == ToLower(b[i])
  }
}
