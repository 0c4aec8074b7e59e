/** The passes of the master's loop as far as the process image is concerned: what each one checks, what
    it runs, and what others write meanwhile. */
module Passes {
  import opened ModbusConfig
  import opened ProcessImages
  import opened StatusBytes
  import opened Transactions

  const NO_ERROR: bv8 := 0x00

  /** What the world contributes to one pass of the loop: bytes written to the image by others before
      the resets are checked, the time spent on them, bytes written by others while the master sleeps or
      waits for a device, the outcome of the transaction and the time it takes. */
  datatype Pass = Pass(patch: map<nat, bv8>, prep: nat, sleepPatch: map<nat, bv8>, outcome: Outcome, cost: nat)

  function Patch(image: Bytes, patch: map<nat, bv8>): (r: Bytes)
    ensures |r| == |image|
  {
    seq(|image|, i requires 0 <= i < |image| => if i in patch then patch[i] else image[i])
  }

  /** A pass with the channels it checks and the action it runs. */
  datatype Turn = Turn(order: seq<nat>, action: nat, pass: Pass)

  ghost predicate TurnFits(m: Master, t: Turn) {
    && Positions(t.order, |m.actions| + 1)
    && t.action < |m.actions| && ValidOutcome(m.actions[t.action], t.pass.outcome)
  }

  ghost predicate TurnsFit(m: Master, turns: seq<Turn>) {
    forall i | 0 <= i < |turns| :: TurnFits(m, turns[i])
  }

  /** The image after the check of the resets ... */
  function CheckedImage(m: Master, image: Bytes, t: Turn): (r: Bytes)
    requires TurnFits(m, t)
    ensures |r| == |image|
  {
    ResetAll(Patch(image, t.pass.patch), Channels(m), t.order)
  }

  /** ... and after the transaction, with what others wrote in between. */
  function PassImage(m: Master, image: Bytes, t: Turn): (r: Bytes)
    requires TurnFits(m, t)
    ensures |r| == |image|
  {
    Process(Patch(CheckedImage(m, image, t), t.pass.sleepPatch), m.actions[t.action], t.pass.outcome).image
  }

  /** The same as events. */
  ghost function PassEvents(m: Master, image: Bytes, t: Turn): (h: seq<Event>)
    requires TurnFits(m, t)
    ensures ValidEvents(m, h)
  {
    [Environment(Patch(image, t.pass.patch)), Check(t.order),
     Environment(Patch(CheckedImage(m, image, t), t.pass.sleepPatch)), Transact(t.action, t.pass.outcome)]
  }

  lemma PassHappens(m: Master, image: Bytes, t: Turn)
    requires TurnFits(m, t)
    ensures ImageAfter(m, image, PassEvents(m, image, t)) == PassImage(m, image, t)
  {
    var h := PassEvents(m, image, t);
    AppendEvent(m, image, [], h[0]);
    AppendEvent(m, image, [h[0]], h[1]);
    AppendEvent(m, image, [h[0], h[1]], h[2]);
    AppendEvent(m, image, [h[0], h[1], h[2]], h[3]);
    assert [] + [h[0]] == [h[0]] && [h[0]] + [h[1]] == [h[0], h[1]] && [h[0], h[1]] + [h[2]] == [h[0], h[1], h[2]];
    assert h == [h[0], h[1], h[2]] + [h[3]];
  }

  // ---------- others spare the status bytes ----------

  ghost predicate Spares(m: Master, patch: map<nat, bv8>) {
    forall c | 0 <= c <= |m.actions| :: Channels(m)[c].statusByte !in patch
  }

  ghost predicate PassSpares(m: Master, pass: Pass) {
    Spares(m, pass.patch) && Spares(m, pass.sleepPatch)
  }

  ghost predicate AllSpare(m: Master, passes: seq<Pass>) {
    forall i | 0 <= i < |passes| :: PassSpares(m, passes[i])
  }

  lemma PassPossible(m: Master, image: Bytes, t: Turn)
    requires TurnFits(m, t) && PassSpares(m, t.pass)
    ensures ValidHistory(m, image, PassEvents(m, image, t))
  {
    var h := PassEvents(m, image, t);
    AppendEvent(m, image, [], h[0]);
    AppendEvent(m, image, [h[0]], h[1]);
    assert [] + [h[0]] == [h[0]] == h[..1] && [h[0]] + [h[1]] == h[..2];
    assert h[..0] == [] && Respectful(m, image, h[0]);
    assert PossibleAt(m, image, h, 0) && PossibleAt(m, image, h, 2);
  }

  // ---------- many passes ----------

  /** The events of a connection: the announcement that all is well, and one pass after the other. */
  ghost function HistoryOf(m: Master, image: Bytes, turns: seq<Turn>): (h: seq<Event>)
    requires TurnsFit(m, turns)
    ensures ValidEvents(m, h)
  {
    if turns == [] then [Announce(NO_ERROR)]
    else
      var before := HistoryOf(m, image, turns[..|turns| - 1]);
      before + PassEvents(m, ImageAfter(m, image, before), turns[|turns| - 1])
  }

  lemma ImageOfTurns(m: Master, image: Bytes, turns: seq<Turn>, t: Turn)
    requires TurnsFit(m, turns) && TurnFits(m, t)
    ensures ImageAfter(m, image, HistoryOf(m, image, turns + [t])) ==
            PassImage(m, ImageAfter(m, image, HistoryOf(m, image, turns)), t)
  {
    var h := HistoryOf(m, image, turns);
    var now := ImageAfter(m, image, h);
    assert (turns + [t])[..|turns|] == turns;
    PassHappens(m, now, t);
    JoinHistories(m, image, h, PassEvents(m, now, t));
  }

  /** Everything that happens is possible, if others do not write to the status bytes. */
  lemma {:induction false} HistoryOfValid(m: Master, image: Bytes, turns: seq<Turn>)
    requires TurnsFit(m, turns)
    requires forall i | 0 <= i < |turns| :: PassSpares(m, turns[i].pass)
    ensures ValidHistory(m, image, HistoryOf(m, image, turns))
  {
    if turns != [] {
      var n := |turns| - 1;
      HistoryOfValid(m, image, turns[..n]);
      var before := HistoryOf(m, image, turns[..n]);
      PassPossible(m, ImageAfter(m, image, before), turns[n]);
      JoinValid(m, image, before, PassEvents(m, ImageAfter(m, image, before), turns[n]));
    }
  }

  // ---------- the resets of one pass ----------

  /** Whether a reset is requested after others have written. */
  ghost predicate RequestedBy(patch: map<nat, bv8>, before: bool, channel: Channel) {
    if channel.resetByte in patch then BitOf(patch[channel.resetByte], channel.resetBit) else before
  }

  lemma PatchRequests(m: Master, image: Bytes, patch: map<nat, bv8>, c: nat)
    requires Separate(Channels(m), |image|) && c <= |m.actions|
    ensures ResetRequested(m, Patch(image, patch), c) <==>
              RequestedBy(patch, ResetRequested(m, image, c), Channels(m)[c])
  {}

  /** After a pass a reset is pending exactly if it was requested since the check, or if it was pending at
      the check, which looked at other channels only. */
  lemma PassEffect(m: Master, image: Bytes, t: Turn, c: nat)
    requires Disjoint(m, |image|) && TurnFits(m, t) && PassSpares(m, t.pass) && c <= |m.actions|
    ensures var ch := Channels(m)[c];
            var atCheck := RequestedBy(t.pass.patch, ResetRequested(m, image, c), ch);
            ResetRequested(m, PassImage(m, image, t), c) <==>
              RequestedBy(t.pass.sleepPatch, atCheck && c !in t.order, ch)
  {
    var checked := CheckedImage(m, image, t);
    PatchRequests(m, image, t.pass.patch, c);
    EventEffect(m, Patch(image, t.pass.patch), Check(t.order), c);
    PatchRequests(m, checked, t.pass.sleepPatch, c);
    EventEffect(m, Patch(checked, t.pass.sleepPatch), Transact(t.action, t.pass.outcome), c);
  }
}
