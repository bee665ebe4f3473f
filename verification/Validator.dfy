/**
  The streaming validator of src/utf8.rs: a four byte buffer holds an unfinished code point between calls.
 */
module Validation {
  import opened Bytes
  import opened Utf8

  /** When `feed` succeeds: the text so far can still become valid, and is valid if it is complete. */
  predicate FeedOk(carry: seq<byte>, input: seq<byte>, complete: bool)
    requires Carry(carry)
  {
    var r := Run(carry, input);
    r.Some? && (complete ==> r.value == [])
  }

  /** The length of the code point that starts with this byte; 0 stands for the branch that must not be reached. */
  function CodePointLen(lead: byte): nat {
    if lead <= 0x7F then 1
    else if 0xC0 <= lead <= 0xDF then 2
    else if 0xE0 <= lead <= 0xEF then 3
    else if 0xF0 <= lead <= 0xF7 then 4
    else 0
  }

  /** Fewer bytes than the lead byte announces stay unfinished; the announced number finishes the code point. */
  lemma FillUp(c: seq<byte>, x: seq<byte>)
    requires Partial(c) && |c| + |x| <= CodePointLen(c[0])
    ensures Run([], c + x) == Run(c, x)
    ensures |c| + |x| < CodePointLen(c[0]) && Run(c, x).Some? ==> Run(c, x).value == c + x
    ensures |c| + |x| == CodePointLen(c[0]) && Run(c, x).Some? ==> Run(c, x).value == []
    decreases x
  {
    RunPartial(c);
    RunSplit([], c, x);
    if x != [] && Step(c, x[0]).Some? && |c| + 1 < CodePointLen(c[0]) {
      FillUp(c + [x[0]], x[1..]);
      assert c + [x[0]] + x[1..] == c + x;
    }
  }

  /**
    The code point in the buffer after `feed` has failed: what was carried over, with the input if that ended the
    text too early, and nothing if the failure lies behind the first code point.
   */
  function FailedCarry(carry: Unfinished, input: seq<byte>): Unfinished {
    if carry == [] then []
    else
      var n := CodePointLen(carry[0]);
      if |carry| + |input| < n then (match Run(carry, input) case Some(c) => c case None => carry)
      else if Run(carry, input[..n - |carry|]).None? then carry
      else []
  }

  class Validator {
    const partial: array<byte>
    var len: nat

    ghost predicate Valid()
      reads this, partial
    {
      partial.Length == 4 && len < 4 && Carry(partial[..len])
    }

    /** The unfinished code point that has been read. */
    ghost function Carried(): seq<byte>
      requires Valid()
      reads this, partial
    {
      partial[..len]
    }

    constructor ()
      ensures Valid() && Carried() == [] && fresh(partial)
    {
      partial := new byte[4](i => 0);
      len := 0;
    }

    /** The announced length exceeds what is buffered, so the unreachable branch is not reached. */
    method CompleteCodepointLen() returns (n: nat)
      requires Valid() && len != 0
      ensures n == CodePointLen(partial[0]) && len < n <= 4
    {
      n := CodePointLen(partial[0]);
    }

    method Reset()
      requires Valid()
      modifies this
      ensures Valid() && Carried() == []
    {
      len := 0;
    }

    /** Copies `data` behind the `at` bytes that are in use. */
    method CopyIn(at: nat, data: seq<byte>)
      requires partial.Length == 4 && at + |data| <= 4
      modifies partial
      ensures partial[..at + |data|] == old(partial[..at]) + data
      ensures partial[..at] == old(partial[..at])
    {
      for i := 0 to |data|
        invariant partial[..at] == old(partial[..at])
        invariant partial[at..at + i] == data[..i]
      {
        partial[at + i] := data[i];
      }
    }

    /**
      The buffered code point is completed as far as the input allows.  `done` tells whether the caller
      must return `ok`; otherwise the code point is finished and the rest of the input remains.
     */
    method Complete(input: seq<byte>, complete: bool) returns (done: bool, ok: bool, used: nat)
      requires Valid() && len != 0
      modifies this, partial
      ensures Valid()
      ensures done ==> ok == FeedOk(old(Carried()), input, complete)
      ensures done && ok ==> Some(Carried()) == Run(old(Carried()), input)
      ensures done && !ok ==> Carried() == FailedCarry(old(Carried()), input)
      ensures !done ==> FailedCarry(old(Carried()), input) == []
      ensures !done ==> used <= |input| && Carried() == [] && Run(old(Carried()), input[..used]) == Some([])
    {
      ghost var c := Carried();
      var available := |input|;
      used := 0;
      if available == 0 && !complete {
        return true, true, 0;
      }
      var total := CompleteCodepointLen();
      var missing := total - len;
      used := Min(available, missing);
      var after := len + used;
      FillUp(c, input[..used]);
      RunSplitAt(c, input, used);
      CopyIn(len, input[..used]);
      assert partial[..after] == c + input[..used];
      if available >= missing {
        if !BasicOk(partial[..after]) {
          return true, false, used;
        }
      } else {
        assert input[..used] == input;
        match CompatScan(partial[..after]) {
          case ScanOk =>
          case ScanInvalid =>
            return true, false, used;
          case ScanIncomplete(_) =>
            len := after;
            return true, !complete, used;
        }
      }
      Reset();
      done, ok := false, true;
    }

    /** Validates input that starts at a code point boundary. */
    method ValidateRest(rest: seq<byte>, complete: bool) returns (ok: bool)
      requires Valid() && len == 0
      modifies this, partial
      ensures Valid()
      ensures ok == FeedOk([], rest, complete)
      ensures if ok then Some(Carried()) == Run([], rest) else Carried() == []
    {
      if complete {
        Reset();
        ok := BasicOk(rest);
      } else {
        match CompatScan(rest) {
          case ScanOk => ok := true;
          case ScanInvalid => ok := false;
          case ScanIncomplete(validUpTo) =>
            ScansAreFaithful(rest);
            len := |rest| - validUpTo;
            CopyIn(0, rest[validUpTo..]);
            assert partial[..len] == rest[validUpTo..];
            ok := true;
        }
      }
    }

    /** Succeeds exactly when the bytes fed so far can still become valid text, and are valid if complete. */
    method Feed(input: seq<byte>, complete: bool) returns (ok: bool)
      requires Valid()
      modifies this, partial
      ensures Valid()
      ensures ok == FeedOk(old(Carried()), input, complete)
      ensures if ok then Some(Carried()) == Run(old(Carried()), input)
              else Carried() == FailedCarry(old(Carried()), input)
    {
      if len == 0 {
        ok := ValidateRest(input, complete);
      } else {
        ghost var c := Carried();
        var done, early, used := Complete(input, complete);
        if done {
          return early;
        }
        RunSplitAt(c, input, used);
        ok := ValidateRest(input[used..], complete);
      }
    }
  }

  // ---------------------------------------------------------------- over a whole run of calls

  /** Feeding the chunks one by one, the last one marked complete if `complete` says so. */
  predicate FeedsOk(carry: seq<byte>, chunks: seq<seq<byte>>, complete: bool)
    requires Carry(carry)
    decreases chunks
  {
    if chunks == [] then true
    else
      && FeedOk(carry, chunks[0], complete && |chunks| == 1)
      && FeedsOk(Run(carry, chunks[0]).value, chunks[1..], complete)
  }

  lemma {:induction false} FeedsRun(carry: seq<byte>, chunks: seq<seq<byte>>, complete: bool)
    requires Carry(carry) && chunks != []
    ensures FeedsOk(carry, chunks, complete) <==> FeedOk(carry, Concat(chunks), complete)
    decreases chunks
  {
    RunSplit(carry, chunks[0], Concat(chunks[1..]));
    if |chunks| == 1 {
      assert chunks[0] + [] == chunks[0];
    } else if Run(carry, chunks[0]).Some? {
      FeedsRun(Run(carry, chunks[0]).value, chunks[1..], complete);
    }
  }

  /**
    From a reset validator, feeding any chunks succeeds if and only if their concatenation is valid UTF-8
    (the last chunk complete) or can be continued to valid UTF-8 (none complete).
   */
  lemma FeedsIffValid(chunks: seq<seq<byte>>)
    requires chunks != []
    ensures FeedsOk([], chunks, true) <==> Valid(Concat(chunks))
    ensures FeedsOk([], chunks, false) <==> Extendable(Concat(chunks))
  {
    FeedsRun([], chunks, true);
    FeedsRun([], chunks, false);
    ValidIffAccepted(Concat(chunks));
    ExtendableIffAlive(Concat(chunks));
  }
}
