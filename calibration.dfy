/**
 * The calibration step that asks the current source on port 2 for a
 * reference output and waits for its acknowledgement, and the error the
 * calibration reports.
 *
 * The serial port is abstract: whether it is open is a parameter, what the
 * program does to it is returned as a list of operations, and what
 * `ReadExisting` returns after the i-th command is the i-th element of a
 * list of replies (the empty string once the list runs out).
 */
module Calibration {
  import opened Bytes
  import opened AsciiFilter

  /** What `SetReferenceCurrent` does to the port, in order. */
  datatype PortOp = DiscardInBuffer | WriteLine(text: string)

  /** How many times the command is sent at most. */
  const RetryCount: nat := 3

  /** The command for a reference current: "#T0" selects 4.00 mA, "#T1" the other output. */
  function ReferenceCommand(referenceValue: real): (command: string)
    ensures command == "#T0" <==> referenceValue == 4.00
    ensures command == "#T0" || command == "#T1"
  {
    if referenceValue == 4.00 then "#T0" else "#T1"
  }

  /** A reply the loop accepts: not empty, with an '=' in it. */
  predicate IsAck(response: string) {
    response != [] && '=' in response
  }

  /** What `ReadExisting` returns after the command is sent for the `attempt`-th time. */
  function ReplyAt(replies: seq<string>, attempt: nat): string {
    if attempt < |replies| then replies[attempt] else ""
  }

  /** The first attempt from `from` on, below `RetryCount`, whose reply is acknowledged. */
  function FirstAckFrom(replies: seq<string>, from: nat): (r: Option<nat>)
    decreases RetryCount - from
  {
    if from >= RetryCount then None
    else if IsAck(ReplyAt(replies, from)) then Some(from)
    else FirstAckFrom(replies, from + 1)
  }

  /** The first acknowledged attempt, if any of the `RetryCount` attempts is. */
  function FirstAck(replies: seq<string>): Option<nat> {
    FirstAckFrom(replies, 0)
  }

  /** `FirstAck` finds the earliest acknowledged attempt, and finds none only when there is none. */
  lemma {:induction false} FirstAckFromIsFirst(replies: seq<string>, from: nat)
    ensures FirstAckFrom(replies, from).Some? ==>
      var i := FirstAckFrom(replies, from).value;
      from <= i < RetryCount && IsAck(ReplyAt(replies, i)) &&
      forall j :: from <= j < i ==> !IsAck(ReplyAt(replies, j))
    ensures FirstAckFrom(replies, from).None? ==>
      forall j :: from <= j < RetryCount ==> !IsAck(ReplyAt(replies, j))
    decreases RetryCount - from
  {
    if from < RetryCount && !IsAck(ReplyAt(replies, from)) {
      FirstAckFromIsFirst(replies, from + 1);
    }
  }

  /** The same for the whole retry loop. */
  lemma FirstAckIsFirst(replies: seq<string>)
    ensures FirstAck(replies).Some? ==>
      var i := FirstAck(replies).value;
      i < RetryCount && IsAck(ReplyAt(replies, i)) && forall j :: 0 <= j < i ==> !IsAck(ReplyAt(replies, j))
    ensures FirstAck(replies).None? ==> forall j :: 0 <= j < RetryCount ==> !IsAck(ReplyAt(replies, j))
  {
    FirstAckFromIsFirst(replies, 0);
  }

  /** How many times the command goes out: up to and including the acknowledged attempt, else all of them. */
  function Sends(replies: seq<string>): (n: nat)
    ensures 1 <= n <= RetryCount
  {
    FirstAckIsFirst(replies);
    match FirstAck(replies)
    case Some(i) => i + 1
    case None => RetryCount
  }

  /** `n` copies of an operation. */
  function Repeat(op: PortOp, n: nat): (ops: seq<PortOp>)
    ensures |ops| == n && forall i :: 0 <= i < n ==> ops[i] == op
  {
    seq(n, _ => op)
  }

  /** What the pressure box of port 2 is set to: the parsed acknowledgement, if one came. */
  function Shown(replies: seq<string>, tryParseDecimal: string -> Option<real>): Option<PressureText> {
    match FirstAck(replies)
    case Some(i) => Some(ParsePressureValue(ReplyAt(replies, i), tryParseDecimal))
    case None => None
  }

  /**
   * `SetReferenceCurrent`: on an open port, discard the input buffer once,
   * then send the command and read the reply up to `RetryCount` times,
   * stopping at the first acknowledged reply, whose parsed value is shown.
   * On a closed port nothing is sent.
   */
  method SetReferenceCurrent(referenceValue: real, portOpen: bool, replies: seq<string>,
                             tryParseDecimal: string -> Option<real>)
    returns (ops: seq<PortOp>, shown: Option<PressureText>)
    ensures !portOpen ==> ops == [] && shown == None
    ensures portOpen ==>
      ops == [DiscardInBuffer] + Repeat(WriteLine(ReferenceCommand(referenceValue)), Sends(replies))
    ensures portOpen ==> shown == Shown(replies, tryParseDecimal)
  {
    var command := if referenceValue == 4.00 then "#T0" else "#T1";
    var retryCount := RetryCount;
    ops := [];
    shown := None;
    if portOpen {
      ops := ops + [DiscardInBuffer];
      for attempt := 0 to retryCount
        invariant ops == [DiscardInBuffer] + Repeat(WriteLine(command), attempt)
        invariant FirstAck(replies) == FirstAckFrom(replies, attempt)
        invariant shown == None
      {
        ops := ops + [WriteLine(command)];
        assert ops == [DiscardInBuffer] + Repeat(WriteLine(command), attempt + 1);
        var response := ReplyAt(replies, attempt);
        if response != "" && '=' in response {
          shown := Some(ParsePressureValue(response, tryParseDecimal));
          break;
        }
      }
    }
  }

  /** The command is written at most `RetryCount` times, so at most four operations reach the port. */
  lemma AtMostThreeSends(replies: seq<string>, command: string)
    ensures |[DiscardInBuffer] + Repeat(WriteLine(command), Sends(replies))| <= 1 + RetryCount
    ensures multiset([DiscardInBuffer] + Repeat(WriteLine(command), Sends(replies)))[WriteLine(command)] <= RetryCount
  {
    var ops := [DiscardInBuffer] + Repeat(WriteLine(command), Sends(replies));
    assert multiset(ops)[WriteLine(command)] <= |ops|;
  }

  /** The loop writes again only after a reply that is not acknowledged, and stops at the first that is. */
  lemma RetriesOnlyAfterNoAck(replies: seq<string>)
    ensures forall j :: 0 <= j < Sends(replies) - 1 ==> !IsAck(ReplyAt(replies, j))
    ensures Sends(replies) < RetryCount ==> IsAck(ReplyAt(replies, Sends(replies) - 1))
  {
    FirstAckIsFirst(replies);
  }

  /** A first reply that is acknowledged means a single send, and the value shown is parsed from it. */
  lemma FirstReplyAcknowledged(replies: seq<string>, tryParseDecimal: string -> Option<real>)
    requires |replies| >= 1 && IsAck(replies[0])
    ensures Sends(replies) == 1
    ensures Shown(replies, tryParseDecimal) == Some(ParsePressureValue(replies[0], tryParseDecimal))
  {
  }

  /** With no reply at all, the command goes out three times and nothing is shown. */
  lemma SilentDevice(tryParseDecimal: string -> Option<real>)
    ensures Sends([]) == RetryCount
    ensures Shown([], tryParseDecimal) == None
  {
    assert FirstAckFrom([], 0) == FirstAckFrom([], 1) == FirstAckFrom([], 2) == FirstAckFrom([], 3);
  }

  /** `CalculateError`: how far the measured value falls below the reference. */
  function CalculateError(reference: real, measured: real): (error: real)
    ensures measured + error == reference
    ensures error == 0.0 <==> measured == reference
  {
    reference - measured
  }
}
