/** The record kept per execution id: its success flag, the retained output, the
    number of objects output, and the errors. Later contributions for the same id are
    merged into it. */
module Records {
  import opened Wrappers
  import opened Engine

  class ExtendedHistoryInfo {
    // Id and CommandSuccessful have private setters that only the constructor uses.
    const id: int
    const commandSuccessful: Option<bool>
    var output: Option<seq<PSObject>>   // None: the collection is null
    var outputCount: int
    var error: Option<seq<PSObject>>

    /** Store every argument verbatim, null collections included. */
    constructor (historyId: int, commandSuccessful: Option<bool>, output: Option<seq<PSObject>>,
                 outputCount: int, error: Option<seq<PSObject>>)
      ensures this.id == historyId && this.commandSuccessful == commandSuccessful
      ensures this.output == output && this.outputCount == outputCount && this.error == error
    {
      this.id := historyId;
      this.commandSuccessful := commandSuccessful;
      this.output := output;
      this.outputCount := outputCount;
      this.error := error;
    }

    /** Concatenating merge. Enumerable.Concat throws on a null collection on either
        side, so all four collections must be present. */
    method Update(output: Option<seq<PSObject>>, outputCount: int, error: Option<seq<PSObject>>)
      requires this.output.Some? && this.error.Some? && output.Some? && error.Some?
      modifies this
      ensures this.output == Some(old(this.output.value) + output.value)
      ensures this.outputCount == old(this.outputCount) + outputCount
      ensures this.error == Some(old(this.error.value) + error.value)
    {
      this.output := Some(this.output.value + output.value);
      this.outputCount := this.outputCount + outputCount;
      this.error := Some(this.error.value + error.value);
    }

    /** The Output getter: null for a null collection, otherwise a fresh array holding
        the same objects in the same order. */
    method Output() returns (r: array?<PSObject>)
      ensures (r == null) == output.None?
      ensures r != null ==> fresh(r) && r[..] == output.value
    {
      if output.Some? {
        var s := output.value;
        r := new PSObject[|s|](i requires 0 <= i < |s| => s[i]);
      } else {
        r := null;
      }
    }

    /** The Error getter, the same copy rule for the error collection. */
    method Error() returns (r: array?<PSObject>)
      ensures (r == null) == error.None?
      ensures r != null ==> fresh(r) && r[..] == error.value
    {
      if error.Some? {
        var s := error.value;
        r := new PSObject[|s|](i requires 0 <= i < |s| => s[i]);
      } else {
        r := null;
      }
    }
  }

  /** Two successive updates leave a record in the same state as one update with the
      concatenated collections and the summed count. */
  method UpdateTwiceIsUpdateOnce(id: int, success: Option<bool>, output0: seq<PSObject>, count0: int,
                                 error0: seq<PSObject>, output1: seq<PSObject>, count1: int,
                                 error1: seq<PSObject>, output2: seq<PSObject>, count2: int,
                                 error2: seq<PSObject>)
    returns (same: bool)
    ensures same
  {
    var twice := new ExtendedHistoryInfo(id, success, Some(output0), count0, Some(error0));
    twice.Update(Some(output1), count1, Some(error1));
    twice.Update(Some(output2), count2, Some(error2));
    var once := new ExtendedHistoryInfo(id, success, Some(output0), count0, Some(error0));
    once.Update(Some(output1 + output2), count1 + count2, Some(error1 + error2));
    assert output0 + output1 + output2 == output0 + (output1 + output2);
    assert error0 + error1 + error2 == error0 + (error1 + error2);
    same := twice.output == once.output && twice.outputCount == once.outputCount
      && twice.error == once.error && twice.id == once.id
      && twice.commandSuccessful == once.commandSuccessful;
  }
}
