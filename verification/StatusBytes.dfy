/** The status bytes over whole runs of the master. Between two events of the master, anybody else may
    write anything to the image but the status bytes; in particular between the check of the resets and
    the transaction, while the master sleeps. */
module StatusBytes {
  import opened ModbusConfig
  import opened ProcessImages
  import opened Transactions
  import opened Widths

  /** A status byte and the bit by which the user asks for it to be cleared. */
  datatype Channel = Channel(statusByte: nat, resetByte: nat, resetBit: nat)

  /** A master device: its actions, and its own status byte with its reset. */
  datatype Master = Master(actions: seq<Action>, statusByte: nat, resetByte: nat)

  /** One channel per action, and the master's own one last; its reset is bit 0. */
  function Channels(m: Master): (c: seq<Channel>)
    ensures |c| == |m.actions| + 1
  {
    seq(|m.actions|, i requires 0 <= i < |m.actions| => ChannelOf(m.actions[i]))
    + [Channel(m.statusByte, m.resetByte, 0)]
  }

  function ChannelOf(a: Action): Channel {
    Channel(a.statusByte, a.resetByte, a.resetBit)
  }

  /** The channel of an action is the one configured for it; the master's reset is the lowest bit of its byte. */
  lemma ChannelsAre(m: Master, i: nat)
    ensures i < |m.actions| ==>
              Channels(m)[i] == Channel(m.actions[i].statusByte, m.actions[i].resetByte, m.actions[i].resetBit)
    ensures Channels(m)[|m.actions|] == Channel(m.statusByte, m.resetByte, 0)
  {}

  /** Within the image, no status byte is shared, no reset bit is shared, and no reset lies in a status byte. */
  ghost predicate Separate(channels: seq<Channel>, size: nat) {
    && size <= UINT16
    && (forall i | 0 <= i < |channels| ::
          channels[i].statusByte < size && channels[i].resetByte < size && channels[i].resetBit < 8)
    && (forall i, j | 0 <= i < |channels| && 0 <= j < |channels| :: channels[i].statusByte != channels[j].resetByte)
    && (forall i, j | 0 <= i < |channels| && 0 <= j < |channels| && i != j ::
          && channels[i].statusByte != channels[j].statusByte
          && (channels[i].resetByte != channels[j].resetByte || channels[i].resetBit != channels[j].resetBit))
  }

  /** Nor do the areas that the action stores data in touch any of them. */
  ghost predicate Clear(a: Action, channels: seq<Channel>) {
    && CountAllowed(a)
    && forall i | 0 <= i < |channels| :: !MayStore(a, channels[i].statusByte) && !MayStore(a, channels[i].resetByte)
  }

  ghost predicate Disjoint(m: Master, size: nat) {
    && Separate(Channels(m), size)
    && forall i | 0 <= i < |m.actions| :: Clear(m.actions[i], Channels(m))
  }

  // ---------- resets ----------

  /** If the reset bit is set, clears the status byte and then the bit; stops at an access that fails. */
  function Reset(image: Bytes, c: Channel): (r: Bytes)
    ensures |r| == |image|
  {
    if Bit(image, Address(c.resetByte), c.resetBit) && InRange(image, c.statusByte, 1) then
      PutBit(PutBytes(image, c.statusByte, [0]), Address(c.resetByte), c.resetBit, false)
    else image
  }

  /** Without a request, or if one of the accesses fails, nothing changes; in particular the request stays
      if the status byte cannot be cleared. */
  lemma ResetStops(image: Bytes, c: Channel)
    requires !Bit(image, Address(c.resetByte), c.resetBit) || c.statusByte >= |image|
    ensures Reset(image, c) == image
  {}

  method ResetActionStatus(image: ProcessImage, c: Channel) returns (r: int)
    modifies image.mem
    ensures image.mem[..] == Reset(old(image.mem[..]), c)
    ensures r >= 0 <==> Accessible(image.mem[..], Address(c.resetByte), c.resetBit)
                        && (Bit(old(image.mem[..]), Address(c.resetByte), c.resetBit) ==>
                              InRange(image.mem[..], c.statusByte, 1))
  {
    var v;
    r, v := image.GetBitValue(Address(c.resetByte), c.resetBit);
    if r < 0 {
      return;
    }
    if v {
      var zero := new bv8[1][0];
      r := image.Write(c.statusByte, 1, zero);
      assert zero[..1] == [0];
      if r < 0 {
        return;
      }
      r := image.SetBitValue(Address(c.resetByte), c.resetBit, false);
    }
  }

  predicate Positions(order: seq<nat>, n: nat) {
    forall i | 0 <= i < |order| :: order[i] < n
  }

  /** Resets the channels at the given positions, one after the other. */
  function ResetAll(image: Bytes, channels: seq<Channel>, order: seq<nat>): (r: Bytes)
    requires Positions(order, |channels|)
    ensures |r| == |image|
  {
    if order == [] then image
    else Reset(ResetAll(image, channels, order[..|order| - 1]), channels[order[|order| - 1]])
  }

  // ---------- runs ----------

  /** What happens to the image: someone else writes it, the master announces the state of its
      connection, it checks the resets of channels one after the other, or it runs an action. */
  datatype Event =
    | Environment(image: Bytes)
    | Announce(code: bv8)
    | Check(order: seq<nat>)
    | Transact(action: nat, outcome: Outcome)

  ghost predicate ValidEvent(m: Master, e: Event) {
    match e
    case Environment(_) => true
    case Announce(_) => true
    case Check(order) => Positions(order, |m.actions| + 1)
    case Transact(action, outcome) => action < |m.actions| && ValidOutcome(m.actions[action], outcome)
  }

  function Apply(m: Master, image: Bytes, e: Event): (r: Bytes)
    requires ValidEvent(m, e)
  {
    match e
    case Environment(written) => written
    case Announce(code) => PutBytes(image, m.statusByte, [code])
    case Check(order) => ResetAll(image, Channels(m), order)
    case Transact(action, outcome) => Process(image, m.actions[action], outcome).image
  }

  /** The environment leaves the size of the image and the status bytes as they are. */
  ghost predicate Respectful(m: Master, before: Bytes, e: Event) {
    e.Environment? ==>
      && |e.image| == |before|
      && forall c | 0 <= c <= |m.actions| && Channels(m)[c].statusByte < |before| ::
           e.image[Channels(m)[c].statusByte] == before[Channels(m)[c].statusByte]
  }

  /** The image after a history of events, and whether each of them was possible. */
  ghost function ImageAfter(m: Master, initial: Bytes, h: seq<Event>): Bytes
    requires ValidEvents(m, h)
  {
    if h == [] then initial else Apply(m, ImageAfter(m, initial, h[..|h| - 1]), h[|h| - 1])
  }

  ghost predicate ValidEvents(m: Master, h: seq<Event>) {
    forall i | 0 <= i < |h| :: ValidEvent(m, h[i])
  }

  ghost predicate ValidHistory(m: Master, initial: Bytes, h: seq<Event>) {
    && ValidEvents(m, h)
    && forall i | 0 <= i < |h| :: PossibleAt(m, initial, h, i)
  }

  ghost predicate PossibleAt(m: Master, initial: Bytes, h: seq<Event>, i: nat)
    requires i < |h| && ValidEvents(m, h)
  {
    Respectful(m, ImageAfter(m, initial, h[..i]), h[i])
  }

  // ---------- what the status should be, read off the history alone ----------

  /** Whether the transaction gets as far as calling libmodbus. */
  predicate Calls(a: Action, size: nat) {
    || ReadsBits(a.functionCode) || ReadsRegisters(a.functionCode) || a.functionCode == REPORT_SLAVE_ID
    || (WritesBits(a.functionCode) && CoilsAccessible(size, a))
    || (WritesRegisters(a.functionCode) && 0 < a.registerCount && a.startByte + 2 * a.registerCount <= size)
  }

  predicate Fails(a: Action, size: nat, out: Outcome) {
    Calls(a, size) && out.len < 0
  }

  /** Whether an event looks at the channel's reset bit. */
  predicate Checks(e: Event, c: nat) {
    e.Check? && c in e.order
  }

  /** Whether an event leaves a code in the channel's status byte, and which. */
  predicate Posts(m: Master, size: nat, e: Event, c: nat)
    requires ValidEvent(m, e)
  {
    || (e.Announce? && c == |m.actions|)
    || (e.Transact? && c == e.action && Fails(m.actions[c], size, e.outcome))
  }

  function Code(e: Event): bv8 {
    match e
    case Announce(code) => code
    case Transact(_, outcome) => StatusCode(outcome.errno)
    case _ => 0
  }

  /** Whether a reset of the channel has been asked for and not been consumed yet. */
  ghost predicate Pending(m: Master, initial: Bytes, h: seq<Event>, c: nat)
    requires c <= |m.actions|
  {
    if h == [] then ResetRequested(m, initial, c)
    else
      var e := h[|h| - 1];
      if e.Environment? then ResetRequested(m, e.image, c)
      else !Checks(e, c) && Pending(m, initial, h[..|h| - 1], c)
  }

  predicate ResetRequested(m: Master, image: Bytes, c: nat)
    requires c <= |m.actions|
  {
    Bit(image, Channels(m)[c].resetByte, Channels(m)[c].resetBit)
  }

  /** Whether the i-th event of a history consumes a reset of the channel. */
  ghost predicate Consumes(m: Master, initial: Bytes, h: seq<Event>, i: nat, c: nat)
    requires i < |h| && c <= |m.actions|
  {
    Checks(h[i], c) && Pending(m, initial, h[..i], c)
  }

  /** Nothing after the i-th event concerns the channel's status. */
  ghost predicate QuietAfter(m: Master, initial: Bytes, h: seq<Event>, i: int, c: nat)
    requires -1 <= i < |h| && c <= |m.actions| && ValidEvents(m, h)
  {
    forall j | i < j < |h| :: !Posts(m, |initial|, h[j], c) && !Consumes(m, initial, h, j, c)
  }

  /** The status is the code of the most recent failure since the last consumed reset, zero if there
      is none, and what it was initially if there was no reset either. */
  ghost predicate StatusIs(m: Master, initial: Bytes, h: seq<Event>, c: nat, v: bv8)
    requires c <= |m.actions| && ValidEvents(m, h)
    requires Channels(m)[c].statusByte < |initial|
  {
    || (exists i | 0 <= i < |h| ::
          Posts(m, |initial|, h[i], c) && v == Code(h[i]) && QuietAfter(m, initial, h, i, c))
    || (exists i | 0 <= i < |h| ::
          Consumes(m, initial, h, i, c) && v == 0 && QuietAfter(m, initial, h, i, c))
    || (QuietAfter(m, initial, h, -1, c) && v == initial[Channels(m)[c].statusByte])
  }

  // ---------- one event ----------

  lemma TransactionFails(image: Bytes, a: Action, out: Outcome)
    requires ValidOutcome(a, out)
    ensures Process(image, a, out).len < 0 <==> Fails(a, |image|, out)
  {}

  lemma ResetEffect(image: Bytes, channels: seq<Channel>, p: nat, c: nat)
    requires Separate(channels, |image|)
    requires p < |channels| && c < |channels|
    ensures var (r, ch) := (Reset(image, channels[p]), channels[c]);
            && Bit(r, ch.resetByte, ch.resetBit) == (c != p && Bit(image, ch.resetByte, ch.resetBit))
            && r[ch.statusByte] == if c == p && Bit(image, ch.resetByte, ch.resetBit) then 0 else image[ch.statusByte]
  {
    var ch, d := channels[c], channels[p];
    assert Address(d.resetByte) == d.resetByte;
    assert ch.statusByte != d.resetByte && d.statusByte != ch.resetByte;
    if Bit(image, d.resetByte, d.resetBit) {
      var cleared := PutBytes(image, d.statusByte, [0]);
      assert cleared[d.statusByte..d.statusByte + 1][0] == 0;
      assert Bit(cleared, ch.resetByte, ch.resetBit) == Bit(image, ch.resetByte, ch.resetBit);
      PutBitThenBit(cleared, d.resetByte, d.resetBit, false, ch.resetByte, ch.resetBit);
    }
  }

  lemma InPrefix(order: seq<nat>, c: nat)
    requires order != []
    ensures c in order <==> c in order[..|order| - 1] || c == order[|order| - 1]
  {
    assert order == order[..|order| - 1] + [order[|order| - 1]];
  }

  lemma {:induction false} ResetAllEffect(image: Bytes, channels: seq<Channel>, order: seq<nat>, c: nat)
    requires Separate(channels, |image|)
    requires c < |channels| && Positions(order, |channels|)
    ensures var (r, ch) := (ResetAll(image, channels, order), channels[c]);
            && Bit(r, ch.resetByte, ch.resetBit) == (c !in order && Bit(image, ch.resetByte, ch.resetBit))
            && r[ch.statusByte] == if c in order && Bit(image, ch.resetByte, ch.resetBit) then 0
                                   else image[ch.statusByte]
  {
    if order != [] {
      var n := |order| - 1;
      ResetAllEffect(image, channels, order[..n], c);
      ResetEffect(ResetAll(image, channels, order[..n]), channels, order[n], c);
      InPrefix(order, c);
    }
  }

  /** What one event does to each channel: a pending reset that is checked is consumed, the code of a
      failure is posted, and nothing else touches any status byte or reset bit. */
  lemma EventEffect(m: Master, image: Bytes, e: Event, c: nat)
    requires Disjoint(m, |image|)
    requires ValidEvent(m, e) && Respectful(m, image, e)
    requires c <= |m.actions|
    ensures var (r, ch) := (Apply(m, image, e), Channels(m)[c]);
            && |r| == |image|
            && ResetRequested(m, r, c) == (if e.Environment? then ResetRequested(m, e.image, c)
                                           else !Checks(e, c) && ResetRequested(m, image, c))
            && r[ch.statusByte] == if Posts(m, |image|, e, c) then Code(e)
                                   else if Checks(e, c) && ResetRequested(m, image, c) then 0
                                   else image[ch.statusByte]
  {
    var channels := Channels(m);
    var ch := channels[c];
    match e
    case Environment(_) =>
    case Announce(code) =>
      assert channels[|m.actions|] == Channel(m.statusByte, m.resetByte, 0);
      assert m.statusByte < |image|;
      assert PutBytes(image, m.statusByte, [code])[m.statusByte..m.statusByte + 1][0] == code;
    case Check(order) =>
      ResetAllEffect(image, channels, order, c);
    case Transact(action, outcome) =>
      var a := m.actions[action];
      assert Clear(a, channels);
      assert channels[action] == ChannelOf(a);
      TransactionFails(image, a, outcome);
      TransactionFrame(image, a, outcome, ch.statusByte);
      TransactionFrame(image, a, outcome, ch.resetByte);
  }

  // ---------- whole runs ----------

  lemma {:induction false} PendingIsRequested(m: Master, initial: Bytes, h: seq<Event>, c: nat)
    requires Disjoint(m, |initial|) && ValidHistory(m, initial, h)
    requires c <= |m.actions|
    ensures |ImageAfter(m, initial, h)| == |initial|
    ensures ResetRequested(m, ImageAfter(m, initial, h), c) == Pending(m, initial, h, c)
  {
    if h != [] {
      var n := |h| - 1;
      PrefixValid(m, initial, h);
      PendingIsRequested(m, initial, h[..n], c);
      EventEffect(m, ImageAfter(m, initial, h[..n]), h[n], c);
    }
  }

  lemma PrefixValid(m: Master, initial: Bytes, h: seq<Event>)
    requires h != [] && ValidHistory(m, initial, h)
    ensures ValidHistory(m, initial, h[..|h| - 1])
    ensures Respectful(m, ImageAfter(m, initial, h[..|h| - 1]), h[|h| - 1])
  {
    var p := h[..|h| - 1];
    forall i | 0 <= i < |p| ensures PossibleAt(m, initial, p, i) {
      assert PossibleAt(m, initial, h, i);
      assert p[..i] == h[..i];
    }
    assert PossibleAt(m, initial, h, |p|);
  }

  /** Sticky status: in every reachable state each channel's status byte holds the code of its most
      recent failure since its last consumed reset, or zero if there was none. */
  lemma {:induction false} StickyStatus(m: Master, initial: Bytes, h: seq<Event>, c: nat)
    requires Disjoint(m, |initial|) && ValidHistory(m, initial, h)
    requires c <= |m.actions|
    ensures |ImageAfter(m, initial, h)| == |initial|
    ensures StatusIs(m, initial, h, c, ImageAfter(m, initial, h)[Channels(m)[c].statusByte])
  {
    if h != [] {
      var n := |h| - 1;
      PrefixValid(m, initial, h);
      StickyStatus(m, initial, h[..n], c);
      PendingIsRequested(m, initial, h[..n], c);
      EventEffect(m, ImageAfter(m, initial, h[..n]), h[n], c);
      StatusStep(m, initial, h, c, ImageAfter(m, initial, h[..n])[Channels(m)[c].statusByte]);
    }
  }

  lemma QuietExtends(m: Master, initial: Bytes, h: seq<Event>, i: int, c: nat)
    requires h != [] && ValidEvents(m, h) && c <= |m.actions|
    requires -1 <= i < |h| - 1 && QuietAfter(m, initial, h[..|h| - 1], i, c)
    requires !Posts(m, |initial|, h[|h| - 1], c) && !Consumes(m, initial, h, |h| - 1, c)
    ensures QuietAfter(m, initial, h, i, c)
  {
    forall j | i < j < |h| ensures !Posts(m, |initial|, h[j], c) && !Consumes(m, initial, h, j, c) {
      if j < |h| - 1 {
        assert h[..|h| - 1][..j] == h[..j];
        assert h[..|h| - 1][j] == h[j];
        assert !Consumes(m, initial, h[..|h| - 1], j, c);
      }
    }
  }

  lemma StatusStep(m: Master, initial: Bytes, h: seq<Event>, c: nat, v: bv8)
    requires h != [] && ValidEvents(m, h) && c <= |m.actions|
    requires Channels(m)[c].statusByte < |initial|
    requires StatusIs(m, initial, h[..|h| - 1], c, v)
    ensures StatusIs(m, initial, h, c,
                     if Posts(m, |initial|, h[|h| - 1], c) then Code(h[|h| - 1])
                     else if Consumes(m, initial, h, |h| - 1, c) then 0 else v)
  {
    var n, p := |h| - 1, h[..|h| - 1];
    if Posts(m, |initial|, h[n], c) || Consumes(m, initial, h, n, c) {
      assert QuietAfter(m, initial, h, n, c);
    } else if i :| 0 <= i < n && Posts(m, |initial|, p[i], c) && v == Code(p[i]) && QuietAfter(m, initial, p, i, c) {
      QuietExtends(m, initial, h, i, c);
      assert h[i] == p[i];
    } else if i :| 0 <= i < n && Consumes(m, initial, p, i, c) && v == 0 && QuietAfter(m, initial, p, i, c) {
      QuietExtends(m, initial, h, i, c);
      assert h[i] == p[i] && p[..i] == h[..i];
      assert Consumes(m, initial, h, i, c);
    } else {
      QuietExtends(m, initial, h, -1, c);
    }
  }

  // ---------- joining histories ----------

  lemma AppendEvent(m: Master, initial: Bytes, h: seq<Event>, e: Event)
    requires ValidEvents(m, h) && ValidEvent(m, e)
    ensures ValidEvents(m, h + [e])
    ensures ImageAfter(m, initial, h + [e]) == Apply(m, ImageAfter(m, initial, h), e)
    ensures ValidHistory(m, initial, h) && Respectful(m, ImageAfter(m, initial, h), e) ==>
              ValidHistory(m, initial, h + [e])
  {
    var more := h + [e];
    assert more[..|h|] == h;
    if ValidHistory(m, initial, h) && Respectful(m, ImageAfter(m, initial, h), e) {
      forall i | 0 <= i < |more| ensures PossibleAt(m, initial, more, i) {
        if i < |h| {
          assert PossibleAt(m, initial, h, i);
          assert more[..i] == h[..i];
        }
      }
    }
  }

  lemma {:induction false} JoinHistories(m: Master, image: Bytes, g: seq<Event>, h: seq<Event>)
    requires ValidEvents(m, g) && ValidEvents(m, h)
    ensures ValidEvents(m, g + h)
    ensures ImageAfter(m, image, g + h) == ImageAfter(m, ImageAfter(m, image, g), h)
  {
    if h == [] {
      assert g + h == g;
    } else {
      var n := |h| - 1;
      JoinHistories(m, image, g, h[..n]);
      assert g + h == g + h[..n] + [h[n]];
      assert (g + h)[..|g + h| - 1] == g + h[..n];
    }
  }

  lemma JoinValid(m: Master, image: Bytes, g: seq<Event>, h: seq<Event>)
    requires ValidHistory(m, image, g) && ValidHistory(m, ImageAfter(m, image, g), h)
    ensures ValidHistory(m, image, g + h)
  {
    JoinHistories(m, image, g, h);
    forall i | 0 <= i < |g + h| ensures PossibleAt(m, image, g + h, i) {
      if i < |g| {
        assert PossibleAt(m, image, g, i);
        assert (g + h)[..i] == g[..i];
      } else {
        assert PossibleAt(m, ImageAfter(m, image, g), h, i - |g|);
        assert (g + h)[..i] == g + h[..i - |g|];
        JoinHistories(m, image, g, h[..i - |g|]);
      }
    }
  }

  ghost function Joined(m: Master, parts: seq<seq<Event>>): (h: seq<Event>)
    requires AllValidEvents(m, parts)
    ensures ValidEvents(m, h)
  {
    if parts == [] then [] else Joined(m, parts[..|parts| - 1]) + parts[|parts| - 1]
  }

  ghost predicate AllValidEvents(m: Master, parts: seq<seq<Event>>) {
    forall i | 0 <= i < |parts| :: ValidEvents(m, parts[i])
  }

  lemma JoinedGrows(m: Master, image: Bytes, parts: seq<seq<Event>>, h: seq<Event>)
    requires AllValidEvents(m, parts) && ValidEvents(m, h)
    ensures AllValidEvents(m, parts + [h])
    ensures ImageAfter(m, image, Joined(m, parts + [h])) == ImageAfter(m, ImageAfter(m, image, Joined(m, parts)), h)
  {
    assert (parts + [h])[..|parts|] == parts;
    JoinHistories(m, image, Joined(m, parts), h);
  }

  ghost predicate PossiblePart(m: Master, image: Bytes, before: seq<seq<Event>>, h: seq<Event>) {
    AllValidEvents(m, before) && ValidHistory(m, ImageAfter(m, image, Joined(m, before)), h)
  }

  lemma {:induction false} JoinedValid(m: Master, image: Bytes, parts: seq<seq<Event>>)
    requires AllValidEvents(m, parts)
    requires forall i | 0 <= i < |parts| :: PossiblePart(m, image, parts[..i], parts[i])
    ensures ValidHistory(m, image, Joined(m, parts))
  {
    if parts != [] {
      var n := |parts| - 1;
      forall i | 0 <= i < n ensures PossiblePart(m, image, parts[..n][..i], parts[..n][i]) {
        assert parts[..n][..i] == parts[..i];
      }
      JoinedValid(m, image, parts[..n]);
      assert PossiblePart(m, image, parts[..n], parts[n]);
      JoinValid(m, image, Joined(m, parts[..n]), parts[n]);
    }
  }

  // ---------- which resets are consumed ----------

  /** Over TCP only the dispatched action's reset is checked, on a serial line every action's; and the
      master's own. */
  function TcpOrder(action: nat): seq<nat> { [action] }

  ghost predicate RtuOrder(m: Master, order: seq<nat>) {
    forall p: nat | p < |m.actions| :: p in order
  }

  /** After a check no reset is pending of a channel that was checked; the requests of the others are
      still there. */
  lemma ResetsConsumed(m: Master, initial: Bytes, h: seq<Event>, order: seq<nat>, c: nat)
    requires Disjoint(m, |initial|) && ValidHistory(m, initial, h)
    requires Positions(order, |m.actions| + 1) && c <= |m.actions|
    ensures ValidHistory(m, initial, h + [Check(order)])
    ensures ResetRequested(m, ImageAfter(m, initial, h + [Check(order)]), c) <==>
              c !in order && ResetRequested(m, ImageAfter(m, initial, h), c)
  {
    AppendEvent(m, initial, h, Check(order));
    PendingIsRequested(m, initial, h, c);
    EventEffect(m, ImageAfter(m, initial, h), Check(order), c);
  }
}
