/** The re-prompt loops of both interactive tools: `input()` is asked again and
    again until an answer is accepted. The answers a user would type are given
    as a sequence; running out of them is what `input()` reports as end of file. */
module Prompts {

  import opened Tables

  /** The position of the first answer at or after `pos` that `accepts` admits,
      or None when every remaining answer is rejected. */
  function FirstAccepted(answers: seq<string>, pos: nat, accepts: string -> bool): (r: Option<nat>)
    requires pos <= |answers|
    ensures r.None? <==> forall k :: pos <= k < |answers| ==> !accepts(answers[k])
    ensures r.Some? ==> pos <= r.value < |answers| && accepts(answers[r.value])
    ensures r.Some? ==> forall k :: pos <= k < r.value ==> !accepts(answers[k])
    decreases |answers| - pos
  {
    if pos == |answers| then None
    else if accepts(answers[pos]) then Some(pos)
    else FirstAccepted(answers, pos + 1, accepts)
  }

  /** `while True: inp = input(); if accepted: break`: reads answers from `pos`
      on, skipping rejected ones without any other effect. */
  method Ask(answers: seq<string>, pos: nat, accepts: string -> bool) returns (r: Option<nat>)
    requires pos <= |answers|
    ensures r == FirstAccepted(answers, pos, accepts)
  {
    var p := pos;
    while true
      invariant pos <= p <= |answers|
      invariant FirstAccepted(answers, p, accepts) == FirstAccepted(answers, pos, accepts)
      decreases |answers| - p
    {
      if p == |answers| {
        return None;
      }
      if accepts(answers[p]) {
        return Some(p);
      }
      p := p + 1;
    }
  }
}
