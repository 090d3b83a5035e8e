/**
 serve_file_while_connected of plugin_server/source/klog.c: a device stream copied to every connected client. What the
 system calls return is a script of turns; every property holds for every script.
 */
module Fanout {

  const FD_SETSIZE: nat := 1024

  /**
   One turn of the loop: select times out, fails, or reports that a client waits and/or that the device is readable.
   `client` is what accept returns and `byte` what read does; write fails for the descriptors in `refused`.
   */
  datatype Turn =
    | Timeout
    | SelectError
    | Ready(waits: bool, client: Accepted, readable: bool, byte: Read, refused: set<nat>)

  datatype Accepted = NoClient | Client(fd: nat)
  datatype Read = NoByte | Byte(ch: char)

  /** A connection: where the device stream stood when it was accepted, and what was written to it. */
  datatype Conn = Conn(start: nat, got: seq<char>)

  /**
   A closed connection: how many bytes had been read by then, and whether it was closed for refusing the last of them.
   */
  datatype Past = Past(conn: Conn, end: nat, refused: bool)

  /**
   The bytes read so far, the open connections by descriptor, the closed ones, and every accept and close in order.
   */
  datatype Net = Net(stream: seq<char>, live: map<nat, Conn>, done: seq<Past>, accepts: seq<nat>, closes: seq<nat>)

  const FRESH := Net([], map[], [], [], [])

  /** Why the loop ended; Running when the script did. */
  datatype Exit = Running | Drained | AcceptFailed | ReadFailed | SelectFailed

  datatype Result = Result(net: Net, exit: Exit)

  // ------------------------------------------------------------------- steps

  function Connect(n: Net, fd: nat): Net {
    n.(live := n.live[fd := Conn(|n.stream|, [])], accepts := n.accepts + [fd])
  }

  function Close(n: Net, fd: nat, refused: bool): Net
    requires fd in n.live
  {
    n.(live := n.live - {fd}, done := n.done + [Past(n.live[fd], |n.stream|, refused)], closes := n.closes + [fd])
  }

  function WriteOne(n: Net, fd: nat, ch: char, refused: set<nat>): Net
    requires fd in n.live
  {
    if fd in refused then Close(n, fd, true)
    else n.(live := n.live[fd := n.live[fd].(got := n.live[fd].got + [ch])])
  }

  /** The loop over the descriptors from fd on. */
  function WriteAll(n: Net, ch: char, refused: set<nat>, fd: nat): Net
    requires fd <= FD_SETSIZE
    decreases FD_SETSIZE - fd
  {
    if fd == FD_SETSIZE then n
    else WriteAll(if fd in n.live then WriteOne(n, fd, ch, refused) else n, ch, refused, fd + 1)
  }

  /** The loop behind the main one. */
  function CloseAll(n: Net, fd: nat): Net
    requires fd <= FD_SETSIZE
    decreases FD_SETSIZE - fd
  {
    if fd == FD_SETSIZE then n else CloseAll(if fd in n.live then Close(n, fd, false) else n, fd + 1)
  }

  /** The body of the loop; any exit but Running jumps out of it. */
  function OneTurn(n: Net, t: Turn): Result {
    match t
    case Timeout => Result(n, Running)
    case SelectError => Result(n, SelectFailed)
    case Ready(waits, client, readable, byte, refused) =>
      if waits && client.NoClient? then Result(n, AcceptFailed)
      else
        var n1 := if waits then Connect(n, client.fd) else n;
        if !readable then Result(n1, Running)
        else if byte.NoByte? then Result(n1, ReadFailed)
        else Result(WriteAll(n1.(stream := n1.stream + [byte.ch]), byte.ch, refused, 0), Running)
  }

  /** The whole function. A select error returns at once, without the loop that closes. */
  function Serve(n: Net, turns: seq<Turn>): Result
    decreases |turns|
  {
    if turns == [] then Result(n, Running)
    else
      var r := OneTurn(n, turns[0]);
      if r.exit == SelectFailed then r
      else if r.exit != Running then Result(CloseAll(r.net, 0), r.exit)
      else if |r.net.live| == 0 then Result(CloseAll(r.net, 0), Drained)
      else Serve(r.net, turns[1..])
  }

  /** What the system guarantees: accept returns a descriptor that is not open, here one that fits an fd_set. */
  predicate FreshAccepts(n: Net, turns: seq<Turn>)
    decreases |turns|
  {
    turns == [] ||
    var t := turns[0];
    && (t.Ready? && t.waits && t.client.Client? ==> t.client.fd !in n.live && t.client.fd < 1024)
    && (var r := OneTurn(n, t); r.exit == Running ==> FreshAccepts(r.net, turns[1..]))
  }

  // ------------------------------------------------------------------ safety

  /** What was written is the stretch of the stream from the accept up to `end`. */
  ghost predicate Slice(c: Conn, stream: seq<char>, end: nat) {
    c.start <= end <= |stream| && c.got == stream[c.start..end]
  }

  /** A closed connection got everything up to its close, less the byte it refused. */
  ghost predicate Served(c: Past, stream: seq<char>) {
    && (c.refused ==> c.end > 0)
    && Slice(c.conn, stream, if c.refused then c.end - 1 else c.end)
  }

  /** Those that refused nothing were closed when the last byte had been read. */
  ghost predicate DoneInv(n: Net) {
    forall c :: c in n.done ==> Served(c, n.stream) && (c.refused || c.end == |n.stream|)
  }

  /** While the loop runs, only a refusal closes a connection. */
  ghost predicate OnlyRefused(n: Net) {
    forall c :: c in n.done ==> c.refused
  }

  /** Every accepted descriptor is open or was closed, each accept once. */
  ghost predicate Ledger(n: Net) {
    multiset(n.accepts) == multiset(n.closes) + multiset(n.live.Keys)
  }

  /** Every open connection got everything since its accept. */
  ghost predicate Inv(n: Net) {
    && (forall fd :: fd in n.live ==> fd < FD_SETSIZE && Slice(n.live[fd], n.stream, |n.stream|))
    && DoneInv(n) && Ledger(n)
  }

  /** ... and the loop is running. */
  ghost predicate RunInv(n: Net) {
    Inv(n) && OnlyRefused(n)
  }

  /** In the middle of the write loop: the descriptors below fd have the new byte. */
  ghost predicate Writing(n: Net, fd: nat) {
    && |n.stream| > 0
    && (forall f :: f in n.live ==>
          f < FD_SETSIZE && Slice(n.live[f], n.stream, if f < fd then |n.stream| else |n.stream| - 1))
    && DoneInv(n) && Ledger(n) && OnlyRefused(n)
  }

  lemma CloseKeepsLedger(n: Net, fd: nat, refused: bool)
    requires Ledger(n) && fd in n.live
    ensures Ledger(Close(n, fd, refused))
  {
    assert n.live.Keys == (n.live - {fd}).Keys + {fd};
    assert multiset(n.closes + [fd]) == multiset(n.closes) + multiset{fd};
  }

  lemma SliceGrows(c: Conn, stream: seq<char>)
    requires |stream| > 0 && Slice(c, stream, |stream| - 1)
    ensures Slice(c.(got := c.got + [stream[|stream| - 1]]), stream, |stream|)
  {
    assert stream[c.start..] == stream[c.start..|stream| - 1] + [stream[|stream| - 1]];
  }

  lemma CloseKeepsDone(n: Net, fd: nat, refused: bool)
    requires DoneInv(n) && fd in n.live && (refused ==> |n.stream| > 0)
    requires Slice(n.live[fd], n.stream, if refused then |n.stream| - 1 else |n.stream|)
    ensures DoneInv(Close(n, fd, refused))
  {
    hide Slice;
  }

  lemma RefusalKeeps(n: Net, fd: nat)
    requires Writing(n, fd) && fd in n.live
    ensures Writing(Close(n, fd, true), fd + 1)
  {
    hide Slice, DoneInv, Ledger;
    CloseKeepsLedger(n, fd, true);
    CloseKeepsDone(n, fd, true);
  }

  lemma WriteKeeps(n: Net, n': Net, fd: nat)
    requires Writing(n, fd) && fd in n.live
    requires n' == n.(live := n.live[fd := n.live[fd].(got := n.live[fd].got + [n.stream[|n.stream| - 1]])])
    ensures Writing(n', fd + 1)
  {
    SliceGrows(n.live[fd], n.stream);
    assert n'.live.Keys == n.live.Keys;
    assert Ledger(n') && DoneInv(n') && OnlyRefused(n');
    hide Slice, DoneInv, Ledger, OnlyRefused;
  }

  lemma WriteOneKeeps(n: Net, fd: nat, ch: char, refused: set<nat>)
    requires Writing(n, fd) && fd in n.live && n.stream[|n.stream| - 1] == ch
    ensures Writing(WriteOne(n, fd, ch, refused), fd + 1)
  {
    hide Writing;
    if fd in refused {
      RefusalKeeps(n, fd);
    } else {
      WriteKeeps(n, WriteOne(n, fd, ch, refused), fd);
    }
  }

  lemma {:induction false} WriteAllKeeps(n: Net, ch: char, refused: set<nat>, fd: nat)
    requires fd <= FD_SETSIZE && Writing(n, fd) && n.stream[|n.stream| - 1] == ch
    ensures RunInv(WriteAll(n, ch, refused, fd)) && WriteAll(n, ch, refused, fd).stream == n.stream
    decreases FD_SETSIZE - fd
  {
    hide DoneInv, Ledger, Slice, OnlyRefused;
    if fd < FD_SETSIZE {
      if fd in n.live {
        WriteOneKeeps(n, fd, ch, refused);
        WriteAllKeeps(WriteOne(n, fd, ch, refused), ch, refused, fd + 1);
      } else {
        WriteAllKeeps(n, ch, refused, fd + 1);
      }
    }
  }

  lemma ConnectKeeps(n: Net, fd: nat)
    requires RunInv(n) && fd !in n.live && fd < FD_SETSIZE
    ensures RunInv(Connect(n, fd))
  {
    var n1 := Connect(n, fd);
    assert Ledger(n1) by {
      assert n1.live.Keys == n.live.Keys + {fd};
      assert multiset(n1.accepts) == multiset(n.accepts) + multiset{fd};
    }
    assert DoneInv(n1);
    hide Ledger, DoneInv;
    assert Slice(n1.live[fd], n1.stream, |n1.stream|);
  }

  lemma ReadKeeps(n: Net, ch: char)
    requires RunInv(n)
    ensures Writing(n.(stream := n.stream + [ch]), 0)
  {
    var n2 := n.(stream := n.stream + [ch]);
    StreamGrows(n, n2);
    assert Ledger(n2);
    hide DoneInv, Ledger;
    forall f | f in n2.live ensures Slice(n2.live[f], n2.stream, |n2.stream| - 1) {
      assert Slice(n.live[f], n.stream, |n.stream|);
      assert n2.stream[n.live[f].start..|n2.stream| - 1] == n.stream[n.live[f].start..];
    }
  }

  lemma OneTurnKeeps(n: Net, t: Turn)
    requires RunInv(n) && FreshAccepts(n, [t])
    ensures RunInv(OneTurn(n, t).net)
  {
    hide WriteAll, RunInv, Writing, Connect;
    if t.Ready? && !(t.waits && t.client.NoClient?) {
      var n1 := if t.waits then Connect(n, t.client.fd) else n;
      if t.waits {
        ConnectKeeps(n, t.client.fd);
      }
      if t.readable && t.byte.Byte? {
        ReadKeeps(n1, t.byte.ch);
        WriteAllKeeps(n1.(stream := n1.stream + [t.byte.ch]), t.byte.ch, t.refused, 0);
      }
    }
  }

  lemma StreamGrows(n1: Net, n2: Net)
    requires DoneInv(n1) && OnlyRefused(n1) && n2.done == n1.done && n1.stream <= n2.stream
    ensures DoneInv(n2)
  {
    forall c | c in n2.done ensures Served(c, n2.stream) {
      assert Served(c, n1.stream) && c.refused;
      assert n2.stream[c.conn.start..c.end - 1] == n1.stream[c.conn.start..c.end - 1];
    }
  }

  /** In the closing loop: nothing is open below fd. */
  lemma {:induction false} CloseAllKeeps(n: Net, fd: nat)
    requires fd <= FD_SETSIZE && Inv(n) && forall f :: f in n.live ==> f >= fd
    ensures Inv(CloseAll(n, fd)) && CloseAll(n, fd).live == map[] && CloseAll(n, fd).stream == n.stream
    decreases FD_SETSIZE - fd
  {
    hide DoneInv, Ledger, Slice;
    if fd < FD_SETSIZE {
      if fd in n.live {
        CloseKeepsLedger(n, fd, false);
        CloseKeepsDone(n, fd, false);
        CloseAllKeeps(Close(n, fd, false), fd + 1);
      } else {
        CloseAllKeeps(n, fd + 1);
      }
    }
  }

  /**
   Over every run, finished or not: each open connection has been written exactly the stream since its accept, each
   closed one that stream up to its close, less the byte it refused. Every end but a select error closes each accepted
   descriptor exactly once; a select error leaves exactly the connected ones open.
   */
  lemma {:induction false} ServeIsSafe(n: Net, turns: seq<Turn>)
    requires RunInv(n) && FreshAccepts(n, turns)
    ensures var r := Serve(n, turns);
            && Inv(r.net) && (r.exit == Running || r.exit == SelectFailed ==> OnlyRefused(r.net))
            && (r.exit != Running && r.exit != SelectFailed ==>
                  r.net.live == map[] && multiset(r.net.accepts) == multiset(r.net.closes))
            && (r.exit == SelectFailed ==> (multiset(r.net.accepts) == multiset(r.net.closes) <==> r.net.live == map[]))
            && (r.exit == Running && turns != [] ==> r.net.live != map[])
    decreases |turns|
  {
    hide OneTurn, CloseAll, DoneInv, Slice, OnlyRefused;
    if turns != [] {
      var r := OneTurn(n, turns[0]);
      FreshFirst(n, turns);
      OneTurnKeeps(n, turns[0]);
      if r.exit == SelectFailed {
        NothingLeaked(r.net);
      } else if r.exit != Running || |r.net.live| == 0 {
        CloseAllKeeps(r.net, 0);
        NothingLeaked(CloseAll(r.net, 0));
      } else {
        ServeIsSafe(r.net, turns[1..]);
        if turns[1..] == [] {
          assert |r.net.live| != 0;
        }
      }
    }
  }

  /** A client connects, and the next select fails: the function returns and the client's descriptor stays open. */
  lemma SelectErrorLeaks(fd: nat)
    ensures Serve(FRESH, [Ready(true, Client(fd), false, NoByte, {}), SelectError])
            == Result(FRESH.(live := map[fd := Conn(0, [])], accepts := [fd]), SelectFailed)
  {
    hide Serve, WriteAll, CloseAll;
    var turns := [Ready(true, Client(fd), false, NoByte, {}), SelectError];
    var n := Connect(FRESH, fd);
    assert turns[1..] == [SelectError] && [] + [fd] == [fd];
    assert n.live == map[fd := Conn(0, [])] && |n.live| == 1;
    ServeStep(FRESH, turns);
    ServeStep(n, turns[1..]);
  }

  // ---------------------------------------------------- success without a client

  /** Nobody waits at the first turn, and no call fails. */
  predicate NobodyWaits(t: Turn) {
    t.Timeout? || (t.Ready? && !t.waits && !(t.readable && t.byte.NoByte?))
  }

  lemma {:induction false} WriteAllAccepts(n: Net, ch: char, refused: set<nat>, fd: nat)
    requires fd <= FD_SETSIZE
    ensures var n' := WriteAll(n, ch, refused, fd); n'.accepts == n.accepts && (n.live == map[] ==> n' == n)
    decreases FD_SETSIZE - fd
  {
    if fd < FD_SETSIZE {
      WriteAllAccepts(if fd in n.live then WriteOne(n, fd, ch, refused) else n, ch, refused, fd + 1);
    }
  }

  lemma {:induction false} CloseAllAccepts(n: Net, fd: nat)
    requires fd <= FD_SETSIZE
    ensures var n' := CloseAll(n, fd); n'.accepts == n.accepts && (n.live == map[] ==> n' == n)
    decreases FD_SETSIZE - fd
  {
    if fd < FD_SETSIZE {
      CloseAllAccepts(if fd in n.live then Close(n, fd, false) else n, fd + 1);
    }
  }

  lemma OneTurnAccepts(n: Net, t: Turn)
    ensures var r := OneTurn(n, t);
            && n.accepts <= r.net.accepts
            && (t.Ready? && t.waits && t.client.Client? ==> |r.net.accepts| == |n.accepts| + 1)
            && (!(t.Ready? && t.waits && t.client.Client?) && n.live == map[] ==>
                  r.net.live == map[] && r.net.accepts == n.accepts)
  {
    hide WriteAll;
    if t.Ready? && !(t.waits && t.client.NoClient?) && t.readable && t.byte.Byte? {
      var n1 := if t.waits then Connect(n, t.client.fd) else n;
      WriteAllAccepts(n1.(stream := n1.stream + [t.byte.ch]), t.byte.ch, t.refused, 0);
    }
  }

  lemma {:induction false} ServeAccepts(n: Net, turns: seq<Turn>)
    ensures n.accepts <= Serve(n, turns).net.accepts
    decreases |turns|
  {
    hide OneTurn, CloseAll;
    if turns != [] {
      var r := OneTurn(n, turns[0]);
      OneTurnAccepts(n, turns[0]);
      CloseAllAccepts(r.net, 0);
      ServeAccepts(r.net, turns[1..]);
    }
  }

  /**
   The function ends with success and without ever having had a client if and only if nobody waits at its first turn: it
   serves while connected, and it does not wait for the first client.
   */
  lemma EndsBeforeFirstClient(n: Net, turns: seq<Turn>)
    requires n.live == map[]
    ensures var r := Serve(n, turns);
            r.exit == Drained && r.net.accepts == n.accepts <==> turns != [] && NobodyWaits(turns[0])
  {
    hide OneTurn, CloseAll, Serve;
    ServeStep(n, turns);
    if turns != [] {
      var t := turns[0];
      var r := OneTurn(n, t);
      OneTurnAccepts(n, t);
      CloseAllAccepts(r.net, 0);
      ServeAccepts(r.net, turns[1..]);
      TurnExit(n, t);
    }
  }

  lemma ServeStep(n: Net, turns: seq<Turn>)
    ensures turns == [] ==> Serve(n, turns) == Result(n, Running)
    ensures turns != [] ==>
              var r := OneTurn(n, turns[0]);
              Serve(n, turns) ==
                if r.exit == SelectFailed then r
                else if r.exit != Running then Result(CloseAll(r.net, 0), r.exit)
                else if |r.net.live| == 0 then Result(CloseAll(r.net, 0), Drained)
                else Serve(r.net, turns[1..])
  {
    hide OneTurn, CloseAll;
  }

  lemma TurnExit(n: Net, t: Turn)
    ensures OneTurn(n, t).exit == Running <==>
            (NobodyWaits(t) || (t.Ready? && t.waits && t.client.Client? && !(t.readable && t.byte.NoByte?)))
    ensures OneTurn(n, t).exit != Drained
  {
    hide WriteAll;
  }

  /** A first select that times out, */
  lemma TimeoutEndsIt(turns: seq<Turn>)
    requires turns != [] && turns[0] == Timeout
    ensures Serve(FRESH, turns) == Result(FRESH, Drained)
  {
    hide CloseAll;
    CloseAllAccepts(FRESH, 0);
  }

  /** or a byte that is there before the first client: it is read and given to nobody. */
  lemma EarlyByteEndsIt(turns: seq<Turn>, ch: char, refused: set<nat>)
    requires turns != [] && turns[0] == Ready(false, NoClient, true, Byte(ch), refused)
    ensures Serve(FRESH, turns) == Result(FRESH.(stream := [ch]), Drained)
  {
    hide WriteAll, CloseAll;
    assert [] + [ch] == [ch];
    WriteAllAccepts(FRESH.(stream := [ch]), ch, refused, 0);
    CloseAllAccepts(FRESH.(stream := [ch]), 0);
  }

  lemma FreshFirst(n: Net, turns: seq<Turn>)
    requires turns != [] && FreshAccepts(n, turns)
    ensures FreshAccepts(n, [turns[0]])
  {
    assert [turns[0]][1..] == [];
  }

  lemma NothingLeaked(n: Net)
    requires Ledger(n)
    ensures multiset(n.accepts) == multiset(n.closes) <==> n.live == map[]
  {
    if n.live != map[] {
      assert n.live.Keys != {};
      var fd :| fd in n.live.Keys;
      assert multiset(n.live.Keys)[fd] == 1;
    }
  }

  // ------------------------------------------------ a run, on its turns alone

  /** Does accept return a client in this turn? */
  predicate Accepts(t: Turn) {
    t.Ready? && t.waits && t.client.Client?
  }

  /** Does a call fail in this turn? A failed accept comes before the device is looked at. */
  predicate Fails(t: Turn) {
    t.SelectError? || (t.Ready? && ((t.waits && t.client.NoClient?) || (t.readable && t.byte.NoByte?)))
  }

  /** Does the turn bring a byte of the device? */
  predicate Delivers(t: Turn) {
    t.Ready? && t.readable && t.byte.Byte? && !Fails(t)
  }

  function Joined(live: set<nat>, t: Turn): set<nat> {
    if Accepts(t) then live + {t.client.fd} else live
  }

  /** The connected clients that refuse the byte of this turn. */
  function Refusing(live: set<nat>, t: Turn): set<nat> {
    if Delivers(t) then Joined(live, t) * t.refused else {}
  }

  function After(live: set<nat>, t: Turn): set<nat> {
    Joined(live, t) - Refusing(live, t)
  }

  /** The clients after all the turns, if the loop gets that far. */
  function LiveAfter(live: set<nat>, turns: seq<Turn>): set<nat>
    decreases |turns|
  {
    if turns == [] then live else LiveAfter(After(live, turns[0]), turns[1..])
  }

  /** Everyone who refused a byte, by turn. */
  function AllRefusing(live: set<nat>, turns: seq<Turn>): multiset<nat>
    decreases |turns|
  {
    if turns == [] then multiset{}
    else multiset(Refusing(live, turns[0])) + AllRefusing(After(live, turns[0]), turns[1..])
  }

  function BytesOf(turns: seq<Turn>): seq<char> {
    if turns == [] then [] else (if Delivers(turns[0]) then [turns[0].byte.ch] else []) + BytesOf(turns[1..])
  }

  function ClientsOf(turns: seq<Turn>): seq<nat> {
    if turns == [] then [] else (if Accepts(turns[0]) then [turns[0].client.fd] else []) + ClientsOf(turns[1..])
  }

  /** No call fails in turn k, and someone is connected after it. */
  predicate OnAfter(live: set<nat>, turns: seq<Turn>, k: nat)
    requires k < |turns|
  {
    !Fails(turns[k]) && LiveAfter(live, turns[..k + 1]) != {}
  }

  /** The loop goes on behind these turns. */
  predicate GoesOn(live: set<nat>, turns: seq<Turn>) {
    forall k :: 0 <= k < |turns| ==> OnAfter(live, turns, k)
  }

  lemma LiveAfterStep(live: set<nat>, turns: seq<Turn>, k: nat)
    requires turns != [] && k < |turns|
    ensures LiveAfter(live, turns[..k + 1]) == LiveAfter(After(live, turns[0]), turns[1..][..k])
  {
    assert turns[..k + 1][1..] == turns[1..][..k];
  }

  lemma OnAfterStep(live: set<nat>, turns: seq<Turn>, k: nat)
    requires k < |turns|
    ensures k == 0 ==> (OnAfter(live, turns, k) <==> !Fails(turns[0]) && After(live, turns[0]) != {})
    ensures k > 0 ==> (OnAfter(live, turns, k) <==> OnAfter(After(live, turns[0]), turns[1..], k - 1))
  {
    hide After, LiveAfter, Fails;
    LiveAfterStep(live, turns, k);
    if k == 0 {
      LiveAfterNothing(After(live, turns[0]), turns[1..][..0]);
    }
  }

  lemma GoesOnStep(live: set<nat>, turns: seq<Turn>)
    requires turns != []
    ensures GoesOn(live, turns) <==>
              !Fails(turns[0]) && After(live, turns[0]) != {} && GoesOn(After(live, turns[0]), turns[1..])
  {
    hide After, Fails, OnAfter;
    var live1, rest := After(live, turns[0]), turns[1..];
    OnAfterStep(live, turns, 0);
    forall k | 0 <= k < |rest| ensures OnAfter(live, turns, k + 1) <==> OnAfter(live1, rest, k) {
      OnAfterStep(live, turns, k + 1);
    }
    if GoesOn(live, turns) {
      forall k | 0 <= k < |rest| ensures OnAfter(live1, rest, k) {
        assert OnAfter(live, turns, k + 1);
      }
    }
    if OnAfter(live, turns, 0) && GoesOn(live1, rest) {
      forall k | 0 <= k < |turns| ensures OnAfter(live, turns, k) {
        if k > 0 { assert OnAfter(live1, rest, k - 1); }
      }
    }
  }

  lemma LiveAfterNothing(live: set<nat>, none: seq<Turn>)
    requires none == []
    ensures LiveAfter(live, none) == live
  {
  }

  /** What a stretch of the run adds to the books: bytes, clients, closes and their records. */
  ghost predicate Adds(n: Net, n': Net, bytes: seq<char>, clients: seq<nat>, closed: multiset<nat>, refused: bool) {
    && n'.stream == n.stream + bytes && n'.accepts == n.accepts + clients
    && multiset(n'.closes) == multiset(n.closes) + closed && n.done <= n'.done && |n'.done| == |n.done| + |closed|
    && forall i :: |n.done| <= i < |n'.done| ==> n'.done[i].refused == refused
  }

  lemma AddsMore(n: Net, n1: Net, n2: Net, b1: seq<char>, b2: seq<char>, c1: seq<nat>, c2: seq<nat>, m1: multiset<nat>,
                 m2: multiset<nat>, refused: bool)
    requires Adds(n, n1, b1, c1, m1, refused) && Adds(n1, n2, b2, c2, m2, refused)
    ensures Adds(n, n2, b1 + b2, c1 + c2, m1 + m2, refused)
  {
  }

  lemma CloseAdds(n: Net, fd: nat, refused: bool)
    requires fd in n.live
    ensures Adds(n, Close(n, fd, refused), [], [], multiset{fd}, refused)
  {
    assert multiset(n.closes + [fd]) == multiset(n.closes) + multiset{fd};
  }

  lemma WriteAllStep(n: Net, ch: char, refused: set<nat>, fd: nat)
    requires fd <= FD_SETSIZE
    ensures WriteAll(n, ch, refused, fd) == if fd == FD_SETSIZE then n
                else WriteAll(if fd in n.live then WriteOne(n, fd, ch, refused) else n, ch, refused, fd + 1)
  {
    hide WriteOne;
  }

  /** One step of the write loop closes the descriptor if it is open and refuses. */
  lemma StepAdds(n: Net, ch: char, refused: set<nat>, fd: nat)
    ensures var n1 := if fd in n.live then WriteOne(n, fd, ch, refused) else n;
            var closed := n.live.Keys * refused * {fd};
            n1.live.Keys == n.live.Keys - closed && Adds(n, n1, [], [], multiset(closed), true)
  {
    hide Adds;
    var closed := n.live.Keys * refused * {fd};
    if fd in n.live && fd in refused {
      assert closed == {fd} && multiset(closed) == multiset{fd};
      CloseAdds(n, fd, true);
    } else {
      assert closed == {} && multiset(closed) == multiset{};
      NothingAdded(n, if fd in n.live then WriteOne(n, fd, ch, refused) else n);
    }
  }

  /** The descriptors from fd on. */
  function From(fds: set<nat>, fd: nat): set<nat> {
    set f | f in fds && f >= fd
  }

  lemma FromStep(fds: set<nat>, refused: set<nat>, fd: nat)
    ensures var closed := fds * refused * {fd};
            var gone, gone1 := From(fds * refused, fd), From((fds - closed) * refused, fd + 1);
            multiset(gone) == multiset(closed) + multiset(gone1) && fds - gone == fds - closed - gone1
  {
    var closed := fds * refused * {fd};
    var gone, gone1 := From(fds * refused, fd), From((fds - closed) * refused, fd + 1);
    assert gone == closed + gone1 && closed !! gone1;
  }

  lemma NothingFrom(fds: set<nat>, refused: set<nat>)
    requires forall f :: f in fds ==> f < FD_SETSIZE
    ensures From(fds * refused, FD_SETSIZE) == {}
  {
  }

  lemma {:induction false} WriteAllAdds(n: Net, ch: char, refused: set<nat>, fd: nat)
    requires fd <= FD_SETSIZE && forall f :: f in n.live ==> f < FD_SETSIZE
    ensures var n' := WriteAll(n, ch, refused, fd);
            var gone := From(n.live.Keys * refused, fd);
            n'.live.Keys == n.live.Keys - gone && Adds(n, n', [], [], multiset(gone), true)
    decreases FD_SETSIZE - fd
  {
    hide Adds, WriteAll, WriteOne, From;
    WriteAllStep(n, ch, refused, fd);
    var gone := From(n.live.Keys * refused, fd);
    if fd < FD_SETSIZE {
      var n1 := if fd in n.live then WriteOne(n, fd, ch, refused) else n;
      var closed, gone1 := n.live.Keys * refused * {fd}, From(n1.live.Keys * refused, fd + 1);
      StepAdds(n, ch, refused, fd);
      WriteAllAdds(n1, ch, refused, fd + 1);
      FromStep(n.live.Keys, refused, fd);
      AddsMore(n, n1, WriteAll(n, ch, refused, fd), [], [], [], [], multiset(closed), multiset(gone1), true);
      NothingTwice([], []);
    } else {
      assert gone == {} by { NothingFrom(n.live.Keys, refused); }
      assert multiset(gone) == multiset{};
      NothingAdded(n, n);
    }
  }

  lemma NothingTwice(b: seq<char>, c: seq<nat>)
    requires b == [] && c == []
    ensures b + b == b && c + c == c
  {
  }

  lemma NothingAdded(n: Net, n': Net)
    requires n' == n.(live := n'.live)
    ensures Adds(n, n', [], [], multiset{}, true) && Adds(n, n', [], [], multiset{}, false)
  {
  }

  lemma {:induction false} CloseAllAdds(n: Net, fd: nat)
    requires fd <= FD_SETSIZE && forall f :: f in n.live ==> fd <= f < FD_SETSIZE
    ensures var n' := CloseAll(n, fd);
            n'.live == map[] && Adds(n, n', [], [], multiset(n.live.Keys), false)
    decreases FD_SETSIZE - fd
  {
    hide Adds;
    if fd < FD_SETSIZE {
      var n1 := if fd in n.live then Close(n, fd, false) else n;
      CloseAllAdds(n1, fd + 1);
      if fd in n.live {
        CloseAdds(n, fd, false);
        assert n.live.Keys == {fd} + n1.live.Keys;
        assert multiset(n.live.Keys) == multiset{fd} + multiset(n1.live.Keys);
        AddsMore(n, n1, CloseAll(n, fd), [], [], [], [], multiset{fd}, multiset(n1.live.Keys), false);
        NothingTwice([], []);
      }
    } else {
      assert n.live.Keys == {};
      assert n.live == map[] && multiset(n.live.Keys) == multiset{};
      NothingAdded(n, n);
    }
  }

  // -------------------------------------------------------- what a run has done

  /** How a failing turn ends the loop. */
  function FailedAs(t: Turn): Exit {
    if t.SelectError? then SelectFailed
    else if t.Ready? && t.waits && t.client.NoClient? then AcceptFailed
    else ReadFailed
  }

  lemma TurnAdds(n: Net, t: Turn)
    requires forall f :: f in n.live ==> f < FD_SETSIZE
    requires Accepts(t) ==> t.client.fd < FD_SETSIZE
    ensures var r := OneTurn(n, t);
            && r.exit == (if Fails(t) then FailedAs(t) else Running) && r.net.live.Keys == After(n.live.Keys, t)
            && Adds(n, r.net, BytesOf([t]), ClientsOf([t]), multiset(Refusing(n.live.Keys, t)), true)
  {
    hide WriteAll, Adds, Refusing, BytesOf, ClientsOf, After;
    var n1 := AfterAccept(n, t);
    AcceptAdds(n, t);
    OneBytes(t);
    if Delivers(t) {
      DeliveryAdds(n1, t.byte.ch, t.refused);
      var gone := multiset(n1.live.Keys * t.refused);
      AddsMore(n, n1, OneTurn(n, t).net, [], [t.byte.ch], ClientsOf([t]), [], multiset{}, gone, true);
      assert multiset{} + gone == gone;
    }
  }

  /** The first half of a turn. */
  function AfterAccept(n: Net, t: Turn): Net {
    if Accepts(t) then Connect(n, t.client.fd) else n
  }

  lemma AcceptAdds(n: Net, t: Turn)
    ensures var n1 := AfterAccept(n, t);
            && n1.live.Keys == Joined(n.live.Keys, t) && n1.stream == n.stream
            && Adds(n, n1, [], ClientsOf([t]), multiset{}, true)
    ensures After(n.live.Keys, t) == Joined(n.live.Keys, t) - Refusing(n.live.Keys, t)
    ensures !Delivers(t) ==>
              multiset(Refusing(n.live.Keys, t)) == multiset{} && After(n.live.Keys, t) == Joined(n.live.Keys, t)
    ensures Delivers(t) ==> Refusing(n.live.Keys, t) == Joined(n.live.Keys, t) * t.refused
  {
    assert !Delivers(t) ==> Refusing(n.live.Keys, t) == {};
  }

  lemma OneBytes(t: Turn)
    ensures BytesOf([t]) == if Delivers(t) then [t.byte.ch] else []
    ensures [] + BytesOf([t]) == BytesOf([t]) && ClientsOf([t]) + [] == ClientsOf([t])
  {
  }

  /** A byte is read and given to everyone who takes it. */
  lemma DeliveryAdds(n: Net, ch: char, refused: set<nat>)
    requires forall f :: f in n.live ==> f < FD_SETSIZE
    ensures var n' := WriteAll(n.(stream := n.stream + [ch]), ch, refused, 0);
            var gone := n.live.Keys * refused;
            n'.live.Keys == n.live.Keys - gone && Adds(n, n', [ch], [], multiset(gone), true)
  {
    hide WriteAll, From;
    var n2 := n.(stream := n.stream + [ch]);
    WriteAllAdds(n2, ch, refused, 0);
    FromZero(n2.live.Keys * refused);
  }

  lemma FromZero(fds: set<nat>)
    ensures From(fds, 0) == fds
  {
  }

  lemma UsedStep(live: set<nat>, turns: seq<Turn>, k: nat)
    requires turns != [] && k <= |turns| - 1
    ensures var used, rest, live1 := turns[..k + 1], turns[1..][..k], After(live, turns[0]);
            && BytesOf(used) == BytesOf([turns[0]]) + BytesOf(rest)
            && ClientsOf(used) == ClientsOf([turns[0]]) + ClientsOf(rest)
            && AllRefusing(live, used) == multiset(Refusing(live, turns[0])) + AllRefusing(live1, rest)
            && LiveAfter(live, used) == LiveAfter(live1, rest)
  {
    hide After, Refusing;
    assert turns[..k + 1][1..] == turns[1..][..k];
    assert [turns[0]][1..] == [];
    assert BytesOf([turns[0]]) == if Delivers(turns[0]) then [turns[0].byte.ch] else [];
    assert ClientsOf([turns[0]]) == if Accepts(turns[0]) then [turns[0].client.fd] else [];
  }

  /** A run that has not ended: everyone who refused was closed then, and the others are connected. */
  lemma {:induction false} ServeGoesOn(n: Net, turns: seq<Turn>)
    requires FreshAccepts(n, turns) && (forall f :: f in n.live ==> f < FD_SETSIZE) && GoesOn(n.live.Keys, turns)
    ensures var r := Serve(n, turns);
            && r.exit == Running && r.net.live.Keys == LiveAfter(n.live.Keys, turns)
            && Adds(n, r.net, BytesOf(turns), ClientsOf(turns), AllRefusing(n.live.Keys, turns), true)
    decreases |turns|
  {
    hide OneTurn, CloseAll, Adds, After, Fails, Serve, GoesOn;
    ServeStep(n, turns);
    if turns == [] {
      NothingAdded(n, n);
    } else {
      var t, n1 := turns[0], OneTurn(n, turns[0]).net;
      FreshFirst(n, turns);
      FreshBound(n, turns);
      TurnAdds(n, t);
      GoesOnStep(n.live.Keys, turns);
      assert |n1.live.Keys| == |n1.live| != 0;
      ServeGoesOn(n1, turns[1..]);
      UsedStep(n.live.Keys, turns, |turns| - 1);
      assert turns[..|turns|] == turns && turns[1..][..|turns| - 1] == turns[1..];
      AddsMore(n, n1, Serve(n, turns).net, BytesOf([t]), BytesOf(turns[1..]), ClientsOf([t]), ClientsOf(turns[1..]),
               multiset(Refusing(n.live.Keys, t)), AllRefusing(After(n.live.Keys, t), turns[1..]), true);
    }
  }

  lemma FreshBound(n: Net, turns: seq<Turn>)
    requires turns != [] && FreshAccepts(n, turns) && forall f :: f in n.live ==> f < FD_SETSIZE
    ensures Accepts(turns[0]) ==> turns[0].client.fd < FD_SETSIZE
    ensures var r := OneTurn(n, turns[0]);
            (forall f :: f in r.net.live ==> f < FD_SETSIZE) && (r.exit == Running ==> FreshAccepts(r.net, turns[1..]))
  {
    hide OneTurn, After;
    TurnAdds(n, turns[0]);
    AfterBound(n.live.Keys, turns[0]);
  }

  lemma AfterBound(live: set<nat>, t: Turn)
    requires (forall f :: f in live ==> f < FD_SETSIZE) && (Accepts(t) ==> t.client.fd < FD_SETSIZE)
    ensures forall f :: f in After(live, t) ==> f < FD_SETSIZE
  {
  }

  /** The loop ends with turn k: a call fails in it, or nobody is left after it. */
  predicate EndsAt(live: set<nat>, turns: seq<Turn>, k: nat) {
    k < |turns| && GoesOn(live, turns[..k]) && (Fails(turns[k]) || LiveAfter(live, turns[..k + 1]) == {})
  }

  lemma EndsAtStep(live: set<nat>, turns: seq<Turn>, k: nat)
    requires 0 < k < |turns| && EndsAt(live, turns, k)
    ensures !Fails(turns[0]) && After(live, turns[0]) != {} && EndsAt(After(live, turns[0]), turns[1..], k - 1)
  {
    hide After, Fails, GoesOn;
    assert turns[..k][0] == turns[0] && turns[..k][1..] == turns[1..][..k - 1];
    GoesOnStep(live, turns[..k]);
    LiveAfterStep(live, turns, k);
  }

  /** Every run goes on behind its turns, or ends with one of them. */
  lemma {:induction false} EndsOrGoesOn(live: set<nat>, turns: seq<Turn>)
    ensures GoesOn(live, turns) || exists k :: EndsAt(live, turns, k)
    decreases |turns|
  {
    if turns != [] {
      var n := |turns| - 1;
      var front := turns[..n];
      EndsOrGoesOn(live, front);
      if k: nat :| EndsAt(live, front, k) {
        assert front[..k] == turns[..k] && front[..k + 1] == turns[..k + 1];
        assert EndsAt(live, turns, k);
      } else if !EndsAt(live, turns, n) {
        forall k | 0 <= k < |turns| ensures OnAfter(live, turns, k) {
          assert front == turns[..n];
          if k < n {
            assert OnAfter(live, front, k);
            assert front[k] == turns[k] && front[..k + 1] == turns[..k + 1];
          }
        }
      }
    }
  }

  /** The last turn: what is left open is closed, unless select failed. */
  lemma LastTurn(n: Net, turns: seq<Turn>) returns (mid: Net)
    requires turns != [] && FreshAccepts(n, turns) && forall f :: f in n.live ==> f < FD_SETSIZE
    requires Fails(turns[0]) || After(n.live.Keys, turns[0]) == {}
    ensures var r, t := Serve(n, turns), turns[0];
            var live := After(n.live.Keys, t);
            && r.exit == (if Fails(t) then FailedAs(t) else Drained)
            && Adds(n, mid, BytesOf([t]), ClientsOf([t]), multiset(Refusing(n.live.Keys, t)), true)
            && (t.SelectError? ==> r.net == mid && r.net.live.Keys == live)
            && (!t.SelectError? ==> r.net.live == map[] && Adds(mid, r.net, [], [], multiset(live), false))
  {
    hide OneTurn, CloseAll, Adds, After, Refusing, Serve, BytesOf, ClientsOf;
    ServeStep(n, turns);
    FreshBound(n, turns);
    TurnAdds(n, turns[0]);
    mid := OneTurn(n, turns[0]).net;
    CloseAllAdds(mid, 0);
    assert !Fails(turns[0]) ==> |mid.live.Keys| == |mid.live| == 0;
  }

  /** A run that ends with turn k: the state `mid` in which it leaves the loop, and what the closing adds to it. */
  lemma {:induction false} ServeEnds(n: Net, turns: seq<Turn>, k: nat) returns (mid: Net)
    requires FreshAccepts(n, turns) && (forall f :: f in n.live ==> f < FD_SETSIZE) && EndsAt(n.live.Keys, turns, k)
    ensures var r, used := Serve(n, turns), turns[..k + 1];
            var live := LiveAfter(n.live.Keys, used);
            && r.exit == (if Fails(turns[k]) then FailedAs(turns[k]) else Drained)
            && Adds(n, mid, BytesOf(used), ClientsOf(used), AllRefusing(n.live.Keys, used), true)
            && (turns[k].SelectError? ==> r.net == mid && r.net.live.Keys == live)
            && (!turns[k].SelectError? ==> r.net.live == map[] && Adds(mid, r.net, [], [], multiset(live), false))
    decreases k
  {
    hide OneTurn, Adds, After, Fails, Serve, GoesOn, Refusing, FailedAs, CloseAll;
    var live, t := n.live.Keys, turns[0];
    UsedStep(live, turns, k);
    if k == 0 {
      assert turns[..1] == [t] && turns[1..][..0] == [];
      LiveAfterNothing(After(live, t), turns[1..][..0]);
      mid := LastTurn(n, turns);
      assert multiset(Refusing(live, t)) + multiset{} == multiset(Refusing(live, t));
      assert BytesOf([t]) + [] == BytesOf([t]) && ClientsOf([t]) + [] == ClientsOf([t]);
    } else {
      EndsAtStep(live, turns, k);
      FreshFirst(n, turns);
      FreshBound(n, turns);
      TurnAdds(n, t);
      ServeStep(n, turns);
      var n1, rest := OneTurn(n, t).net, turns[1..];
      assert |n1.live.Keys| == |n1.live| != 0;
      mid := ServeEnds(n1, rest, k - 1);
      AddsMore(n, n1, mid, BytesOf([t]), BytesOf(rest[..k]), ClientsOf([t]), ClientsOf(rest[..k]),
               multiset(Refusing(live, t)), AllRefusing(After(live, t), rest[..k]), true);
    }
  }

  /** The turns a run looks at: all of them while it goes on, up to the one it ends with otherwise. */
  ghost predicate Uses(live: set<nat>, turns: seq<Turn>, used: seq<Turn>) {
    || (GoesOn(live, turns) && used == turns)
    || exists k: nat :: EndsAt(live, turns, k) && used == turns[..k + 1]
  }

  lemma UsesExist(live: set<nat>, turns: seq<Turn>)
    ensures exists used :: Uses(live, turns, used)
  {
    EndsOrGoesOn(live, turns);
    if k: nat :| EndsAt(live, turns, k) {
      assert Uses(live, turns, turns[..k + 1]);
    } else {
      assert Uses(live, turns, turns);
    }
  }

  /**
   What any run does, told by the turns it looks at: the stream grows by the byte of every turn that brings one, every
   client of a turn is accepted, and the connections closed as refused are those of the descriptors that refuse the byte
   of such a turn while they are connected. All the others are closed at the end, behind them, but for a select error
   and a run that goes on, which close nobody else.
   */
  lemma ServeDelivers(n: Net, turns: seq<Turn>, used: seq<Turn>)
    requires FreshAccepts(n, turns) && (forall f :: f in n.live ==> f < 1024) && Uses(n.live.Keys, turns, used)
    ensures var r, live := Serve(n, turns), n.live.Keys;
            var refused := AllRefusing(live, used);
            && r.net.stream == n.stream + BytesOf(used) && r.net.accepts == n.accepts + ClientsOf(used)
            && n.done <= r.net.done
            && (forall i :: |n.done| <= i < |r.net.done| ==>
                  (r.net.done[i].refused <==> i < |n.done| + |refused|))
            && |r.net.done| >= |n.done| + |refused|
            && (r.exit == Running || r.exit == SelectFailed ==>
                  && r.net.live.Keys == LiveAfter(live, used)
                  && multiset(r.net.closes) == multiset(n.closes) + refused)
            && (r.exit != Running && r.exit != SelectFailed ==>
                  && r.net.live == map[]
                  && multiset(r.net.closes) == multiset(n.closes) + refused + multiset(LiveAfter(live, used)))
            && (r.exit == Running <==> GoesOn(live, turns))
  {
    hide Serve, GoesOn, FreshAccepts, LiveAfter, AllRefusing, BytesOf, ClientsOf, Adds, Fails;
    var live := n.live.Keys;
    if GoesOn(live, turns) && used == turns {
      ServeGoesOn(n, turns);
      AddsIs(n, Serve(n, turns).net, BytesOf(used), ClientsOf(used), AllRefusing(live, used), true);
    } else {
      var k: nat :| EndsAt(live, turns, k) && used == turns[..k + 1];
      var mid := ServeEnds(n, turns, k);
      EndsNotOn(live, turns, k);
      AddsIs(n, mid, BytesOf(used), ClientsOf(used), AllRefusing(live, used), true);
      if !turns[k].SelectError? {
        AddsIs(mid, Serve(n, turns).net, [], [], multiset(LiveAfter(live, used)), false);
      }
    }
  }

  lemma AddsIs(n: Net, n': Net, bytes: seq<char>, clients: seq<nat>, closed: multiset<nat>, refused: bool)
    requires Adds(n, n', bytes, clients, closed, refused)
    ensures n'.stream == n.stream + bytes && n'.accepts == n.accepts + clients
    ensures multiset(n'.closes) == multiset(n.closes) + closed && n.done <= n'.done
    ensures |n'.done| == |n.done| + |closed|
    ensures forall i :: |n.done| <= i < |n'.done| ==> n'.done[i].refused == refused
  {
  }

  lemma EndsNotOn(live: set<nat>, turns: seq<Turn>, k: nat)
    requires EndsAt(live, turns, k)
    ensures k < |turns| && !GoesOn(live, turns)
    ensures Fails(turns[k]) ==>
              var e := FailedAs(turns[k]);
              e != Running && e != Drained && (e == SelectFailed <==> turns[k].SelectError?)
    ensures turns[k].SelectError? ==> Fails(turns[k])
  {
    assert !OnAfter(live, turns, k);
  }

  // -------------------------------------------------------------- the method

  /** The system's side of the descriptors. Writing to or closing one that is not open is an error of the caller. */
  class Sockets {
    var net: Net

    constructor ()
      ensures net == FRESH
    {
      net := FRESH;
    }

    method Accept(fd: nat)
      modifies this
      ensures net == Connect(old(net), fd)
    {
      net := Connect(net, fd);
    }

    method ReadByte(ch: char)
      modifies this
      ensures net == old(net).(stream := old(net).stream + [ch])
    {
      net := net.(stream := net.stream + [ch]);
    }

    method Write(fd: nat, ch: char)
      requires fd in net.live
      modifies this
      ensures net == WriteOne(old(net), fd, ch, {})
    {
      net := WriteOne(net, fd, ch, {});
    }

    /** close; `refused` says that the last write failed. */
    method CloseFd(fd: nat, refused: bool)
      requires fd in net.live
      modifies this
      ensures net == Close(old(net), fd, refused)
    {
      net := Close(net, fd, refused);
    }
  }

  lemma CloseAllStep(n: Net, fd: nat)
    requires fd <= FD_SETSIZE
    ensures CloseAll(n, fd) == if fd == FD_SETSIZE then n
                else CloseAll(if fd in n.live then Close(n, fd, false) else n, fd + 1)
  {
    hide Close;
  }

  /** The loop that writes one byte to everyone, with the set and the count of the clients. */
  method FanOut(s: Sockets, ch: char, refused: set<nat>, output_set: set<nat>, nb_connections: nat)
      returns (clients: set<nat>, count: nat)
    requires output_set == s.net.live.Keys && nb_connections == |output_set|
    modifies s
    ensures s.net == WriteAll(old(s.net), ch, refused, 0) && clients == s.net.live.Keys && count == |clients|
  {
    hide WriteAll;
    clients, count := output_set, nb_connections;
    for client_fd := 0 to FD_SETSIZE
      invariant clients == s.net.live.Keys && count == |clients|
      invariant WriteAll(old(s.net), ch, refused, 0) == WriteAll(s.net, ch, refused, client_fd)
    {
      WriteAllStep(s.net, ch, refused, client_fd);
      if client_fd in clients {
        if client_fd in refused {
          clients := clients - {client_fd};
          s.CloseFd(client_fd, true);
          count := count - 1;
        } else {
          s.Write(client_fd, ch);
        }
      }
    }
    WriteAllStep(s.net, ch, refused, FD_SETSIZE);
  }

  method CloseClients(s: Sockets, output_set: set<nat>)
    requires output_set == s.net.live.Keys
    modifies s
    ensures s.net == CloseAll(old(s.net), 0)
  {
    hide CloseAll;
    var clients := output_set;
    for client_fd := 0 to FD_SETSIZE
      invariant clients == s.net.live.Keys && CloseAll(old(s.net), 0) == CloseAll(s.net, client_fd)
    {
      CloseAllStep(s.net, client_fd);
      if client_fd in clients {
        clients := clients - {client_fd};
        s.CloseFd(client_fd, false);
      }
    }
    CloseAllStep(s.net, FD_SETSIZE);
  }

  /** The function, for an open device. The count always is the size of the set. */
  method ServeFileWhileConnected(s: Sockets, turns: seq<Turn>) returns (err: int, exit: Exit)
    requires s.net.live == map[] && FreshAccepts(s.net, turns)
    modifies s
    ensures Result(s.net, exit) == Serve(old(s.net), turns)
    ensures err == if exit == Running || exit == Drained then 0 else -1
  {
    hide WriteAll, CloseAll;
    var output_set: set<nat>, nb_connections: nat := {}, 0;
    err := 0;
    var i := 0;
    assert turns[0..] == turns;
    while i < |turns|
      invariant 0 <= i <= |turns| && output_set == s.net.live.Keys && nb_connections == |output_set| && err == 0
      invariant Serve(old(s.net), turns) == Serve(s.net, turns[i..])
      invariant FreshAccepts(s.net, turns[i..])
    {
      var t := turns[i];
      assert turns[i..][0] == t && turns[i..][1..] == turns[i + 1..];
      i := i + 1;
      if t.SelectError? {
        return -1, SelectFailed;
      }
      if t.Ready? {
        if t.waits {
          if t.client.NoClient? {
            CloseClients(s, output_set);
            return -1, AcceptFailed;
          }
          s.Accept(t.client.fd);
          output_set := output_set + {t.client.fd};
          nb_connections := nb_connections + 1;
        }
        if t.readable {
          if t.byte.NoByte? {
            CloseClients(s, output_set);
            return -1, ReadFailed;
          }
          s.ReadByte(t.byte.ch);
          output_set, nb_connections := FanOut(s, t.byte.ch, t.refused, output_set, nb_connections);
        }
      }
      if nb_connections == 0 {
        assert |s.net.live| == 0 by { assert s.net.live.Keys == {}; }
        CloseClients(s, output_set);
        return 0, Drained;
      }
    }
    exit := Running;
  }
}
