/** The TCP server loop of the slave: one sweep over the descriptors that select reported, during
    which connections are accepted and closed and the bound of the sweep moves. */
module SlaveSockets {

  /** The descriptors being watched, and the number the sweep runs up to. */
  datatype Sockets = Sockets(watched: set<nat>, fdmax: int)

  /** What a sweep meets: the descriptors reported ready, the descriptor that accept would return
      (or -1), and the connections whose request fails. */
  datatype Sweep = Sweep(ready: set<nat>, accepted: int, failing: set<nat>)

  // ---------- one sweep ----------

  /** What visiting one descriptor does. */
  function Visit(s: Sockets, server: nat, w: Sweep, fd: nat): Sockets {
    if fd !in w.ready then s
    else if fd == server then
      if w.accepted < 0 then s
      else Sockets(s.watched + {w.accepted}, if w.accepted > s.fdmax then w.accepted else s.fdmax)
    else if fd in w.failing then
      Sockets(s.watched - {fd}, if fd == s.fdmax then s.fdmax - 1 else s.fdmax)
    else s
  }

  predicate IsRequest(server: nat, w: Sweep, fd: nat) {
    fd in w.ready && fd != server
  }

  /** The sweep from a descriptor on: the sockets at its end, and the connections served on the way.
      Its bound grows at most once, at the server's own descriptor. */
  function SweepFrom(s: Sockets, server: nat, w: Sweep, fd: nat): (Sockets, seq<nat>)
    decreases if fd <= server then 1 else 0, s.fdmax - fd
  {
    if s.fdmax < fd then (s, [])
    else
      var (t, served) := SweepFrom(Visit(s, server, w, fd), server, w, fd + 1);
      (t, (if IsRequest(server, w, fd) then [fd] else []) + served)
  }

  /** The loop's invariant: the server is watched, and nothing watched lies beyond the bound. */
  ghost predicate Valid(s: Sockets, server: nat) {
    server in s.watched && forall fd | fd in s.watched :: fd <= s.fdmax
  }

  /** The connections that are closed by the time the sweep reaches a descriptor. */
  ghost function Closed(server: nat, w: Sweep, fd: nat): set<nat> {
    set c | c in w.ready && c in w.failing && c != server && c < fd
  }

  /** Select reports watched descriptors only, and accept returns one that is not open at that time. */
  ghost predicate Possible(s: Sockets, server: nat, w: Sweep) {
    && w.ready <= s.watched
    && (0 <= w.accepted ==> w.accepted !in s.watched - Closed(server, w, server))
  }

  ghost predicate Ascending(q: seq<nat>) {
    forall i, j | 0 <= i < j < |q| :: q[i] < q[j]
  }

  /** The state in the middle of a sweep that began with the given watched descriptors. */
  ghost predicate MidSweep(s: Sockets, before: set<nat>, server: nat, w: Sweep, fd: nat) {
    && Valid(s, server)
    && s.watched == before - Closed(server, w, fd) + Joined(server, w, fd)
  }

  ghost function Joined(server: nat, w: Sweep, fd: nat): set<nat> {
    if server in w.ready && server < fd && 0 <= w.accepted then {w.accepted as nat} else {}
  }

  lemma VisitKeepsMidSweep(s: Sockets, before: set<nat>, server: nat, w: Sweep, fd: nat)
    requires w.ready <= before
    requires 0 <= w.accepted ==> w.accepted !in before - Closed(server, w, server)
    requires MidSweep(s, before, server, w, fd) && fd <= s.fdmax
    ensures MidSweep(Visit(s, server, w, fd), before, server, w, fd + 1)
  {
    var t := Visit(s, server, w, fd);
    if fd in w.ready && fd != server && fd in w.failing {
      assert Closed(server, w, fd + 1) == Closed(server, w, fd) + {fd};
      assert server < fd ==> fd in before - Closed(server, w, server);
    } else {
      assert Closed(server, w, fd + 1) == Closed(server, w, fd);
    }
  }

  /** The watched descriptors after a whole sweep: the failed connections are gone, and the accepted one is there. */
  ghost function Remaining(before: set<nat>, server: nat, w: Sweep): set<nat> {
    before - (w.ready * w.failing - {server})
    + (if server in w.ready && 0 <= w.accepted then {w.accepted as nat} else {})
  }

  lemma AscendingCons(fd: nat, q: seq<nat>)
    requires Ascending(q) && forall c | c in q :: fd < c
    ensures Ascending([fd] + q)
  {
    forall i | 0 <= i < |q| ensures fd < q[i] {
      assert q[i] in q;
    }
  }

  lemma {:induction false} SweepFromCorrect(s: Sockets, before: set<nat>, server: nat, w: Sweep, fd: nat)
    requires w.ready <= before
    requires 0 <= w.accepted ==> w.accepted !in before - Closed(server, w, server)
    requires MidSweep(s, before, server, w, fd)
    ensures var (t, served) := SweepFrom(s, server, w, fd);
            && Ascending(served)
            && (forall c :: c in served <==> IsRequest(server, w, c) && fd <= c)
            && Valid(t, server)
            && t.watched == Remaining(before, server, w)
    decreases if fd <= server then 1 else 0, s.fdmax - fd
  {
    if s.fdmax < fd {
      forall c: nat | fd <= c ensures c !in w.ready {
        assert c !in s.watched && c !in Closed(server, w, fd);
      }
      assert Closed(server, w, fd) == w.ready * w.failing - {server};
    } else {
      VisitKeepsMidSweep(s, before, server, w, fd);
      SweepFromCorrect(Visit(s, server, w, fd), before, server, w, fd + 1);
      AscendingCons(fd, SweepFrom(Visit(s, server, w, fd), server, w, fd + 1).1);
    }
  }

  /** A sweep serves exactly the reported connections, each once and in ascending order; it closes
      those that failed, and it watches the accepted one without serving it: if that has the number
      of a served one, it is the number of an earlier connection, closed before the accept. */
  lemma SweepCorrect(s: Sockets, server: nat, w: Sweep)
    requires Valid(s, server) && Possible(s, server, w)
    ensures var (t, served) := SweepFrom(s, server, w, 0);
            && Valid(t, server)
            && Ascending(served)
            && (forall c :: c in served <==> c in w.ready && c != server)
            && t.watched == Remaining(s.watched, server, w)
            && (0 <= w.accepted && w.accepted in served ==> w.accepted < server && w.accepted in w.failing)
  {
    assert Closed(server, w, 0) == {};
    SweepFromCorrect(s, s.watched, server, w, 0);
  }

  /** The bound during a sweep: raised by the accept, if it has taken place. */
  function BoundBy(fdmax: int, server: nat, w: Sweep, fd: nat): int {
    if server in w.ready && server < fd && w.accepted > fdmax then w.accepted else fdmax
  }

  lemma {:induction false} SweepFromBound(s: Sockets, before: Sockets, server: nat, w: Sweep, fd: nat)
    requires Valid(before, server) && Possible(before, server, w)
    requires s.fdmax == BoundBy(before.fdmax, server, w, fd)
    requires fd <= s.fdmax + 1
    requires forall c: nat | c < fd && c == s.fdmax :: c == server || c !in w.ready || c !in w.failing
    ensures var b := BoundBy(before.fdmax, server, w, server + 1);
            SweepFrom(s, server, w, fd).0.fdmax ==
            if b != server && b in w.ready && b in w.failing then b - 1 else b
    decreases if fd <= server then 1 else 0, s.fdmax - fd
  {
    if fd <= s.fdmax {
      var t := Visit(s, server, w, fd);
      if fd == s.fdmax && fd != server && fd in w.ready && fd in w.failing {
        assert SweepFrom(t, server, w, fd + 1).0 == t;
      } else {
        SweepFromBound(t, before, server, w, fd + 1);
      }
    }
  }

  /** The bound after a sweep: raised to the accepted descriptor if that is higher, and lowered by one if the
      connection with the highest descriptor was closed. */
  lemma SweepBound(s: Sockets, server: nat, w: Sweep)
    requires Valid(s, server) && Possible(s, server, w)
    ensures var b := BoundBy(s.fdmax, server, w, server + 1);
            SweepFrom(s, server, w, 0).0.fdmax == if b != server && b in w.ready && b in w.failing then b - 1 else b
  {
    SweepFromBound(s, s, server, w, 0);
  }

  // ---------- whole runs ----------

  function AfterSweeps(s: Sockets, server: nat, sweeps: seq<Sweep>): Sockets {
    if sweeps == [] then s
    else SweepFrom(AfterSweeps(s, server, sweeps[..|sweeps| - 1]), server, sweeps[|sweeps| - 1], 0).0
  }

  ghost predicate PossibleRun(s: Sockets, server: nat, sweeps: seq<Sweep>) {
    sweeps == [] ||
    var n := |sweeps| - 1;
    PossibleRun(s, server, sweeps[..n]) && Possible(AfterSweeps(s, server, sweeps[..n]), server, sweeps[n])
  }

  /** Over any run of accepts and closes the server stays watched and the bound stays sound. */
  lemma {:induction false} RunsStayValid(s: Sockets, server: nat, sweeps: seq<Sweep>)
    requires Valid(s, server) && PossibleRun(s, server, sweeps)
    ensures Valid(AfterSweeps(s, server, sweeps), server)
  {
    if sweeps != [] {
      var n := |sweeps| - 1;
      RunsStayValid(s, server, sweeps[..n]);
      SweepCorrect(AfterSweeps(s, server, sweeps[..n]), server, sweeps[n]);
    }
  }

  // ---------- the loop in place ----------

  class SlaveServer {
    const server: nat
    var refset: set<nat>
    var fdmax: int

    /** Right after listening: only the server's own socket is watched. */
    constructor (server: nat)
      ensures this.server == server && State() == Sockets({server}, server)
      ensures Valid(State(), server)
    {
      this.server := server;
      refset := {server};
      fdmax := server;
    }

    function State(): Sockets
      reads this
    {
      Sockets(refset, fdmax)
    }

    /** Accepts on the server's own socket, serves a connection on any other; true for the latter. */
    method VisitSocket(w: Sweep, socket: nat) returns (request: bool)
      modifies this
      ensures State() == Visit(old(State()), server, w, socket)
      ensures request == IsRequest(server, w, socket)
    {
      request := false;
      if socket !in w.ready {
        return;
      }
      if socket == server {
        if w.accepted >= 0 {
          refset := refset + {w.accepted};
          if w.accepted > fdmax {
            fdmax := w.accepted;
          }
        }
      } else {
        request := true;
        if socket in w.failing {
          refset := refset - {socket};
          if socket == fdmax {
            fdmax := fdmax - 1;
          }
        }
      }
    }

    method RunSweep(w: Sweep) returns (served: seq<nat>)
      requires Valid(State(), server) && Possible(State(), server, w)
      modifies this
      ensures State() == SweepFrom(old(State()), server, w, 0).0
      ensures served == SweepFrom(old(State()), server, w, 0).1
      ensures Valid(State(), server)
    {
      ghost var start := State();
      ghost var (end, all) := SweepFrom(start, server, w, 0);
      served := [];
      var socket := 0;
      while socket <= fdmax
        invariant 0 <= socket
        invariant SweepFrom(State(), server, w, socket).0 == end
        invariant served + SweepFrom(State(), server, w, socket).1 == all
        decreases if socket <= server then 1 else 0, fdmax - socket
      {
        ghost var before := served;
        var request := VisitSocket(w, socket);
        if request {
          served := served + [socket];
        }
        socket := socket + 1;
        ghost var rest := SweepFrom(State(), server, w, socket).1;
        assert served + rest == before + ((if request then [socket - 1] else []) + rest);
      }
      assert served + [] == served;
      assert Valid(State(), server) by {
        SweepCorrect(start, server, w);
      }
    }
  }
}
