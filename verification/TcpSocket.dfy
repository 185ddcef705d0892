/** `tcp_sock_write`: how the bytes of one call are cut into packets. */
module TcpSocket {
  import opened RingBuffer
  import opened TcpConstants
  import opened TcpSender
  import opened TcpSenderSafety

  /** The number of bytes in front of the first NUL; `mem` is the memory from the start of the data on. */
  function Strlen(mem: seq<Byte>): (n: nat)
    ensures n <= |mem|
  {
    if mem == [] || mem[0] == 0 then 0 else 1 + Strlen(mem[1..])
  }

  lemma {:induction false} StrlenIs(mem: seq<Byte>, len: nat)
    requires len <= |mem|
    ensures len <= Strlen(mem) <==> forall i :: 0 <= i < len ==> mem[i] != 0
  {
    if len > 0 {
      StrlenIs(mem[1..], len - 1);
      assert forall i :: 0 < i < len ==> mem[i] == mem[1..][i - 1];
    }
  }

  /** The length of the next packet. */
  function ChunkLength(mem: seq<Byte>, len: nat, sent: nat): int {
    Min(MSS, Min(len, Strlen(mem)) - sent)
  }

  /** The bytes sent after `k` turns of the loop. */
  function SentAfter(mem: seq<Byte>, len: nat, k: nat): (n: nat)
    ensures n == Min(k * MSS, Min(len, Strlen(mem)))
  {
    if k == 0 then 0
    else
      var n := SentAfter(mem, len, k - 1);
      if n < len then n + ChunkLength(mem, len, n) else n
  }

  /** The loop ends exactly if the data holds no NUL byte. */
  lemma EndsExactly(mem: seq<Byte>, len: nat)
    requires len <= |mem|
    ensures (exists k: nat :: len <= SentAfter(mem, len, k)) <==> forall i :: 0 <= i < len ==> mem[i] != 0
  {
    StrlenIs(mem, len);
    assert len <= Strlen(mem) ==> len <= SentAfter(mem, len, len);
  }

  /** Cut off by a NUL byte, the loop goes on with empty packets. */
  lemma StuckOnEmptyPackets(mem: seq<Byte>, len: nat, i: nat, k: nat)
    requires i < len <= |mem| && mem[i] == 0 && len <= k * MSS
    ensures SentAfter(mem, len, k) == Strlen(mem) <= i
    ensures ChunkLength(mem, len, SentAfter(mem, len, k)) == 0
  {
    StrlenIs(mem, i + 1);
    StrlenIs(mem, len);
  }

  function Chunks(data: seq<Byte>): seq<Event> {
    if data == [] then []
    else if |data| <= MSS then [Data(data)]
    else [Data(data[..MSS])] + Chunks(data[MSS..])
  }

  function Payloads(es: seq<Event>): seq<Byte> {
    if es == [] then [] else (if es[0].Data? then es[0].payload else []) + Payloads(es[1..])
  }

  /** The packets are sensible, no longer than MSS, and carry the data in order. */
  lemma {:induction false} ChunksCarryData(data: seq<Byte>)
    ensures Payloads(Chunks(data)) == data && AllSensible(Chunks(data))
    ensures forall i :: 0 <= i < |Chunks(data)| ==> Chunks(data)[i].Data? && 1 <= |Chunks(data)[i].payload| <= MSS
    ensures forall i :: 0 <= i < |Chunks(data)| - 1 ==> |Chunks(data)[i].payload| == MSS
  {
    if |data| > MSS {
      ChunksCarryData(data[MSS..]);
      assert Chunks(data)[1..] == Chunks(data[MSS..]);
      assert data == data[..MSS] + data[MSS..];
    }
  }

  // ----- The loop with its waits ------------------------------------------------

  /** The window does not cover a full packet for each packet in flight. */
  predicate Blocked(s: Snd) {
    s.wnd < MSS * s.inflight
  }

  /** An acknowledgement moves a window whose 16 low bits are 0. */
  predicate Reopens(s: Snd, ack: nat, rwnd: nat) {
    var t := ProcessAck(s, ack, rwnd).0;
    t.una <= ack <= t.nxt && s.wnd % 0x1_0000 == 0
  }

  /** What happens notifies `wait_send`. */
  predicate Notifies(s: Snd, e: Event) {
    e.Ack? && (Reopens(s, e.ack, e.rwnd) || After(s, e).state == OPEN)
  }

  /** What the writer and the other threads do: something happens to the sender, or the writer looks at the window. */
  datatype Act = Happened(event: Event) | Look

  /** What the writer knows of the window since its last packet. */
  datatype View = Unseen | Open | Shut

  function StateAfter(s0: Snd, acts: seq<Act>): Snd {
    if acts == [] then s0 else
    var n := |acts| - 1;
    var s := StateAfter(s0, acts[..n]);
    if acts[n].Look? then s else After(s, acts[n].event)
  }

  /** The first packet needs no look. */
  function ViewAfter(s0: Snd, acts: seq<Act>): View {
    if acts == [] then Open else
    var n := |acts| - 1;
    if acts[n].Look? then (if Blocked(StateAfter(s0, acts[..n])) then Shut else Open)
    else if acts[n].event.Data? then Unseen
    else ViewAfter(s0, acts[..n])
  }

  /** Something has notified the writer since its last look. */
  predicate NotifiedSince(s0: Snd, acts: seq<Act>) {
    acts != [] &&
    var n := |acts| - 1;
    acts[n].Happened? && (Notifies(StateAfter(s0, acts[..n]), acts[n].event) || NotifiedSince(s0, acts[..n]))
  }

  /** Every packet is sent on an open window: the look after the one before has found it so. */
  predicate Paced(s0: Snd, acts: seq<Act>) {
    acts != [] ==>
      var n := |acts| - 1;
      Paced(s0, acts[..n]) && (acts[n].Happened? && acts[n].event.Data? ==> ViewAfter(s0, acts[..n]) == Open)
  }

  function DataOf(acts: seq<Act>): seq<Event> {
    if acts == [] then [] else
    var n := |acts| - 1;
    DataOf(acts[..n]) + if acts[n].Happened? && acts[n].event.Data? then [acts[n].event] else []
  }

  function OthersOf(acts: seq<Act>): seq<Event> {
    if acts == [] then [] else
    var n := |acts| - 1;
    OthersOf(acts[..n]) + if acts[n].Happened? && !acts[n].event.Data? then [acts[n].event] else []
  }

  function Flat(batches: seq<seq<Event>>): seq<Event> {
    if batches == [] then [] else Flat(batches[..|batches| - 1]) + batches[|batches| - 1]
  }

  /** How far a write has come: what the writer and the others have done, and what is left to send. */
  ghost predicate Written(s0: Snd, s: Snd, acts: seq<Act>, mem: seq<Byte>, len: nat, sent: nat, others: seq<Event>)
    requires sent <= len <= |mem|
  {
    && s == StateAfter(s0, acts) && Paced(s0, acts)
    && DataOf(acts) + Chunks(mem[sent..len]) == Chunks(mem[..len]) && OthersOf(acts) == others
  }

  /** One more look, or one more event of another thread. */
  lemma WrittenMore(s0: Snd, acts: seq<Act>, mem: seq<Byte>, len: nat, sent: nat, others: seq<Event>, a: Act)
    requires sent <= len <= |mem| && Written(s0, StateAfter(s0, acts), acts, mem, len, sent, others)
    requires a.Happened? ==> !a.event.Data?
    ensures Written(s0, StateAfter(s0, acts + [a]), acts + [a], mem, len, sent,
                    others + if a.Look? then [] else [a.event])
    ensures var s := StateAfter(s0, acts);
            if a.Look? then
              && StateAfter(s0, acts + [a]) == s && ViewAfter(s0, acts + [a]) == (if Blocked(s) then Shut else Open)
              && !NotifiedSince(s0, acts + [a])
            else
              && StateAfter(s0, acts + [a]) == After(s, a.event) && ViewAfter(s0, acts + [a]) == ViewAfter(s0, acts)
              && (NotifiedSince(s0, acts + [a]) <==> Notifies(s, a.event) || NotifiedSince(s0, acts))
  {
    assert (acts + [a])[..|acts|] == acts;
  }

  /** Something another thread does to the sender, and whether it notifies the writer. */
  method Happens(s: Sender, e: Event) returns (notifies: bool)
    requires !e.Data?
    modifies s
    ensures s.State() == After(old(s.State()), e) && notifies == Notifies(old(s.State()), e)
  {
    notifies := false;
    match e
    case Ack(ack, rwnd) =>
      var zero := s.sndWnd % 0x1_0000 == 0;
      var r := s.HandleAck(ack, rwnd);
      notifies := (s.sndUna <= ack <= s.sndNxt && zero) || s.cgtState == OPEN;
    case TimerScan => var out := s.ScanTimers();
  }

  /** No data is sent by the other threads. */
  ghost predicate NoData(batches: seq<seq<Event>>) {
    forall i, j :: 0 <= i < |batches| && 0 <= j < |batches[i]| ==> !batches[i][j].Data?
  }

  /** A notification since the last look is pending. */
  ghost predicate Noted(s0: Snd, acts: seq<Act>, pending: bool) {
    NotifiedSince(s0, acts) ==> pending
  }

  /** What other threads do between two steps of the writer. */
  method Meanwhile(s: Sender, pending0: bool, batch: seq<Event>, ghost s0: Snd, ghost acts0: seq<Act>,
                   ghost mem: seq<Byte>, ghost len: nat, ghost sent: nat, ghost before: seq<Event>)
    returns (pending: bool, ghost acts: seq<Act>)
    requires sent <= len <= |mem| && (forall e :: e in batch ==> !e.Data?)
    requires Written(s0, s.State(), acts0, mem, len, sent, before)
    modifies s
    ensures Written(s0, s.State(), acts, mem, len, sent, before + batch) && ViewAfter(s0, acts) == ViewAfter(s0, acts0)
    ensures Noted(s0, acts0, pending0) ==> Noted(s0, acts, pending)
    ensures batch == [] ==> pending == pending0
  {
    pending, acts := pending0, acts0;
    assert batch[..0] == [] && before + [] == before;
    for i := 0 to |batch|
      invariant Written(s0, s.State(), acts, mem, len, sent, before + batch[..i])
      invariant ViewAfter(s0, acts) == ViewAfter(s0, acts0) && (Noted(s0, acts0, pending0) ==> Noted(s0, acts, pending))
      invariant i == 0 ==> pending == pending0
    {
      WrittenMore(s0, acts, mem, len, sent, before + batch[..i], Happened(batch[i]));
      assert before + batch[..i + 1] == before + batch[..i] + [batch[i]];
      acts := acts + [Happened(batch[i])];
      var notifies := Happens(s, batch[i]);
      pending := pending || notifies;
    }
    assert batch[..|batch|] == batch;
  }

  /** The batch that comes next, if any. */
  method NextBatch(others: seq<seq<Event>>, used0: nat) returns (batch: seq<Event>, used: nat)
    requires used0 <= |others| && NoData(others)
    ensures used0 <= used <= |others| && if used0 < |others| then used == used0 + 1 else batch == []
    ensures Flat(others[..used]) == Flat(others[..used0]) + batch && forall e :: e in batch ==> !e.Data?
  {
    if used0 == |others| {
      return [], used0;
    }
    batch, used := others[used0], used0 + 1;
    assert others[..used][..used0] == others[..used0];
  }

  /** One packet. */
  method SendChunk(s: Sender, mem: seq<Byte>, len: nat, sent0: nat, ghost others: seq<Event>, ghost s0: Snd,
                   ghost acts0: seq<Act>)
    returns (sent: nat, ghost acts: seq<Act>)
    requires sent0 < len <= |mem| && len <= Strlen(mem) && Written(s0, s.State(), acts0, mem, len, sent0, others)
    requires ViewAfter(s0, acts0) == Open
    modifies s
    ensures sent0 < sent <= len && Written(s0, s.State(), acts, mem, len, sent, others)
    ensures NotifiedSince(s0, acts) <==> NotifiedSince(s0, acts0)
  {
    var dataLen := ChunkLength(mem, len, sent0);
    var data := mem[sent0..sent0 + dataLen];
    NextChunk(mem, len, sent0, dataLen);
    var x := s.Send(data);
    acts := acts0 + [Happened(Data(data))];
    sent := sent0 + dataLen;
    assert acts[..|acts0|] == acts0;
    assert DataOf(acts0) + ([Data(data)] + Chunks(mem[sent..len])) == DataOf(acts) + Chunks(mem[sent..len]);
  }

  /** `sleep_on` without a notification: comes back when it has been notified, or when nothing more happens. */
  method Sleep(s: Sender, others: seq<seq<Event>>, used0: nat, ghost s0: Snd, ghost acts0: seq<Act>,
               ghost mem: seq<Byte>, ghost len: nat, ghost sent: nat)
    returns (notified: bool, used: nat, ghost acts: seq<Act>)
    requires sent <= len <= |mem| && used0 <= |others| && NoData(others)
    requires Written(s0, s.State(), acts0, mem, len, sent, Flat(others[..used0])) && !NotifiedSince(s0, acts0)
    modifies s
    ensures used0 <= used <= |others| && Written(s0, s.State(), acts, mem, len, sent, Flat(others[..used]))
    ensures if notified then used0 < used else used == |others| && !NotifiedSince(s0, acts)
    ensures ViewAfter(s0, acts) == ViewAfter(s0, acts0)
  {
    notified, used, acts := false, used0, acts0;
    while !notified && used < |others|
      invariant used0 <= used <= |others| && Written(s0, s.State(), acts, mem, len, sent, Flat(others[..used]))
      invariant if notified then used0 < used else !NotifiedSince(s0, acts)
      invariant ViewAfter(s0, acts) == ViewAfter(s0, acts0)
      decreases |others| - used
    {
      ghost var before := Flat(others[..used]);
      var batch;
      batch, used := NextBatch(others, used);
      notified, acts := Meanwhile(s, notified, batch, s0, acts, mem, len, sent, before);
    }
  }

  /** The state of a write between two steps, with the events of `others` used up so far. */
  ghost predicate Going(s0: Snd, s: Snd, acts: seq<Act>, mem: seq<Byte>, len: nat, sent: nat,
                        others: seq<seq<Event>>, used: nat)
    requires sent <= len <= |mem|
  {
    used <= |others| && NoData(others) && Written(s0, s, acts, mem, len, sent, Flat(others[..used]))
  }

  /** Other threads go on between two steps of the writer. */
  method Yield(s: Sender, pending0: bool, others: seq<seq<Event>>, used0: nat, ghost s0: Snd, ghost acts0: seq<Act>,
               ghost mem: seq<Byte>, ghost len: nat, ghost sent: nat)
    returns (pending: bool, used: nat, ghost acts: seq<Act>)
    requires sent <= len <= |mem| && Going(s0, s.State(), acts0, mem, len, sent, others, used0)
    modifies s
    ensures Going(s0, s.State(), acts, mem, len, sent, others, used) && ViewAfter(s0, acts) == ViewAfter(s0, acts0)
    ensures Noted(s0, acts0, pending0) ==> Noted(s0, acts, pending)
    ensures if used0 < |others| then used0 < used else used == used0 && pending == pending0
  {
    var batch;
    batch, used := NextBatch(others, used0);
    pending, acts := Meanwhile(s, pending0, batch, s0, acts0, mem, len, sent, Flat(others[..used0]));
  }

  /** One look at the window. */
  method LookAt(s: Sender, ghost others: seq<seq<Event>>, ghost used: nat, ghost s0: Snd, ghost acts0: seq<Act>,
                ghost mem: seq<Byte>, ghost len: nat, ghost sent: nat)
    returns (shut: bool, ghost acts: seq<Act>)
    requires sent <= len <= |mem| && Going(s0, s.State(), acts0, mem, len, sent, others, used)
    ensures Going(s0, s.State(), acts, mem, len, sent, others, used)
    ensures ViewAfter(s0, acts) == (if shut then Shut else Open) && !NotifiedSince(s0, acts)
  {
    shut := s.sndWnd < MSS * s.inflight;
    acts := acts0 + [Look];
    WrittenMore(s0, acts0, mem, len, sent, Flat(others[..used]), Look);
    assert Flat(others[..used]) + [] == Flat(others[..used]);
  }

  /**
   Looks at the window, sleeps while it is too small, and looks again when it
   has been notified.  Comes back asleep when nothing more happens.
   */
  method Await(s: Sender, pending0: bool, others: seq<seq<Event>>, used0: nat, ghost s0: Snd, ghost acts0: seq<Act>,
               ghost mem: seq<Byte>, ghost len: nat, ghost sent: nat)
    returns (asleep: bool, pending: bool, used: nat, ghost acts: seq<Act>)
    requires sent <= len <= |mem| && Going(s0, s.State(), acts0, mem, len, sent, others, used0)
    modifies s
    ensures Going(s0, s.State(), acts, mem, len, sent, others, used)
    ensures if asleep then used == |others| && ViewAfter(s0, acts) == Shut && !NotifiedSince(s0, acts)
            else ViewAfter(s0, acts) == Open
  {
    asleep, pending, used, acts := false, pending0, used0, acts0;
    var shut;
    shut, acts := LookAt(s, others, used, s0, acts, mem, len, sent);
    while shut && !asleep
      invariant Going(s0, s.State(), acts, mem, len, sent, others, used)
      invariant ViewAfter(s0, acts) == (if shut then Shut else Open) && !NotifiedSince(s0, acts)
      invariant asleep ==> shut && used == |others|
      decreases shut, !asleep, |others| - used, pending
    {
      pending, used, acts := Yield(s, pending, others, used, s0, acts, mem, len, sent);
      if !pending {
        pending, used, acts := Sleep(s, others, used, s0, acts, mem, len, sent);
      }
      asleep := !pending;
      if !asleep {
        pending, used, acts := Yield(s, false, others, used, s0, acts, mem, len, sent);
        shut, acts := LookAt(s, others, used, s0, acts, mem, len, sent);
      }
    }
  }

  /**
   `tcp_sock_write` on data that holds no NUL byte, while between any two of its
   steps other threads do what `others` says; `pending0` tells whether `wait_send`
   is still notified from before.  It comes back when all is sent and a look after
   it has found the window open.  Otherwise it is asleep: its last look found the
   window too small, and nothing has notified it since.
   */
  method Write(s: Sender, mem: seq<Byte>, len: nat, pending0: bool, others: seq<seq<Event>>)
    returns (asleep: bool, sent: nat, used: nat, ghost acts: seq<Act>)
    requires len <= |mem| && (forall i :: 0 <= i < len ==> mem[i] != 0) && NoData(others)
    modifies s
    ensures sent <= len && used <= |others|
    ensures Written(old(s.State()), s.State(), acts, mem, len, sent, Flat(others[..used]))
    ensures if asleep then used == |others| && ViewAfter(old(s.State()), acts) == Shut
                             && !NotifiedSince(old(s.State()), acts)
            else sent == len && ViewAfter(old(s.State()), acts) == Open
  {
    StrlenIs(mem, len);
    asleep, sent, used, acts := false, 0, 0, [];
    var pending := pending0;
    assert mem[0..len] == mem[..len] && others[..0] == [];
    while !asleep && sent < len
      invariant sent <= len && Going(old(s.State()), s.State(), acts, mem, len, sent, others, used)
      invariant if asleep then used == |others| && ViewAfter(old(s.State()), acts) == Shut
                                 && !NotifiedSince(old(s.State()), acts)
                else ViewAfter(old(s.State()), acts) == Open
      decreases !asleep, len - sent
    {
      pending, used, acts := Yield(s, pending, others, used, old(s.State()), acts, mem, len, sent);
      sent, acts := SendChunk(s, mem, len, sent, Flat(others[..used]), old(s.State()), acts);
      pending, used, acts := Yield(s, pending, others, used, old(s.State()), acts, mem, len, sent);
      asleep, pending, used, acts := Await(s, pending, others, used, old(s.State()), acts, mem, len, sent);
    }
  }

  lemma NextChunk(mem: seq<Byte>, len: nat, sent: nat, n: nat)
    requires sent < len <= |mem| && n == Min(MSS, len - sent)
    ensures Chunks(mem[sent..len]) == [Data(mem[sent..sent + n])] + Chunks(mem[sent + n..len])
  {
    var rest := mem[sent..len];
    assert rest[..n] == mem[sent..sent + n] && rest[n..] == mem[sent + n..len];
  }

  // ----- How much a write sends on a window -----------------------------------------

  /** Only packets being sent. */
  ghost predicate AllData(es: seq<Event>) {
    forall i :: 0 <= i < |es| ==> es[i].Data?
  }

  /** The window shrinks by exactly the bytes sent, as long as they are within it; nothing else but the queue moves. */
  lemma {:induction false} WindowAfterSending(s: Snd, es: seq<Event>)
    requires AllData(es) && |Payloads(es)| <= s.wnd < U32
    ensures var t := AfterAll(s, es);
            && t.wnd == s.wnd - |Payloads(es)| && t.inflight == s.inflight + |es| && t.nxt == s.nxt + |Payloads(es)|
            && t == s.(wnd := t.wnd, inflight := t.inflight, nxt := t.nxt, queue := t.queue)
    decreases |es|
  {
    if es != [] {
      WindowAfterSending(After(s, es[0]), es[1..]);
    }
  }

  /** Nothing but looks and full packets. */
  predicate OnlyFull(acts: seq<Act>) {
    forall i :: 0 <= i < |acts| && acts[i].Happened? ==> acts[i].event.Data? && |acts[i].event.payload| == MSS
  }

  /** What a window of `w` bytes is worth: one smaller than a packet wraps around with the first. */
  function Worth(w: nat): nat {
    if w < MSS then w + U32 else w
  }

  /** The packets a window lets go: one more than half of what it covers. */
  function Burst(w: nat): nat {
    Worth(w) / (2 * MSS) + 1
  }

  lemma BurstIs(w: nat, j: nat)
    ensures j < Burst(w) <==> 2 * j * MSS <= Worth(w)
    ensures Burst(w) * MSS <= Worth(w)
  {
    var (v, q) := (Worth(w), Worth(w) / (2 * MSS));
    assert 2 * MSS * q <= v < 2 * MSS * (q + 1);
    assert MSS <= v;
  }

  /** With nothing in flight before and nothing acknowledged meanwhile, looks find the window open half of the way. */
  lemma {:induction false} PacedOnWindow(s0: Snd, acts: seq<Act>)
    requires s0.inflight == 0 && s0.wnd < U32 && Paced(s0, acts) && OnlyFull(acts)
    ensures var (t, j) := (StateAfter(s0, acts), |DataOf(acts)|);
            && j <= Burst(s0.wnd) && t.inflight == j
            && t.wnd == (if j == 0 then s0.wnd else Worth(s0.wnd) - j * MSS)
            && match ViewAfter(s0, acts)
               case Unseen => j > 0
               case Open => j < Burst(s0.wnd)
               case Shut => j == Burst(s0.wnd)
  {
    if acts != [] {
      var n := |acts| - 1;
      PacedOnWindow(s0, acts[..n]);
      var j := |DataOf(acts[..n])|;
      BurstIs(s0.wnd, j);
      if acts[n].Look? {
        LookOnWindow(s0, acts[..n], j);
      } else {
        PacketOnWindow(s0, acts[..n], acts[n].event.payload, j);
      }
    }
  }

  lemma LookOnWindow(s0: Snd, acts: seq<Act>, j: nat)
    requires var t := StateAfter(s0, acts);
             j <= Burst(s0.wnd) && t.inflight == j && t.wnd == if j == 0 then s0.wnd else Worth(s0.wnd) - j * MSS
    ensures Blocked(StateAfter(s0, acts)) <==> j == Burst(s0.wnd)
  {
    BurstIs(s0.wnd, j);
  }

  lemma PacketOnWindow(s0: Snd, acts: seq<Act>, data: seq<Byte>, j: nat)
    requires s0.wnd < U32 && |data| == MSS && j < Burst(s0.wnd)
    requires var t := StateAfter(s0, acts); t.wnd == if j == 0 then s0.wnd else Worth(s0.wnd) - j * MSS
    ensures After(StateAfter(s0, acts), Data(data)).wnd == Worth(s0.wnd) - (j + 1) * MSS
  {
    BurstIs(s0.wnd, j);
    BurstIs(s0.wnd, j + 1);
    var w := StateAfter(s0, acts).wnd;
    assert (j + 1) * MSS <= Worth(s0.wnd);
    assert w - MSS == Worth(s0.wnd) - (j + 1) * MSS || w - MSS + U32 == Worth(s0.wnd) - (j + 1) * MSS;
  }

  lemma {:induction false} PayloadsConcat(a: seq<Event>, b: seq<Event>)
    ensures Payloads(a + b) == Payloads(a) + Payloads(b)
  {
    if a == [] {
      assert a + b == b;
    } else {
      PayloadsConcat(a[1..], b);
      assert (a + b)[1..] == a[1..] + b;
    }
  }

  predicate AllFull(es: seq<Event>) {
    forall i :: 0 <= i < |es| ==> es[i].Data? && |es[i].payload| == MSS
  }

  lemma {:induction false} FullPayloads(es: seq<Event>)
    requires AllFull(es)
    ensures |Payloads(es)| == MSS * |es|
  {
    if es != [] {
      FullPayloads(es[1..]);
    }
  }

  lemma {:induction false} FullChunks(data: seq<Byte>, n: nat)
    requires |data| == n * MSS
    ensures AllFull(Chunks(data))
    decreases n
  {
    if n > 1 {
      FullChunks(data[MSS..], n - 1);
    }
  }

  lemma {:induction false} ActsAreFull(acts: seq<Act>)
    requires OthersOf(acts) == [] && AllFull(DataOf(acts))
    ensures OnlyFull(acts)
  {
    if acts != [] {
      var n := |acts| - 1;
      assert OthersOf(acts[..n]) == [];
      assert forall i :: 0 <= i < |DataOf(acts[..n])| ==> DataOf(acts)[i] == DataOf(acts[..n])[i];
      if acts[n].Happened? {
        assert acts[n].event.Data?;
        assert DataOf(acts)[|DataOf(acts)| - 1] == acts[n].event;
      }
      ActsAreFull(acts[..n]);
      assert forall i :: 0 <= i < n ==> acts[i] == acts[..n][i];
    }
  }

  /** The bytes a write has sent are those of its packets. */
  lemma SentIsPackets(s0: Snd, s: Snd, acts: seq<Act>, mem: seq<Byte>, n: nat, sent: nat)
    requires sent <= n * MSS <= |mem| && Written(s0, s, acts, mem, n * MSS, sent, [])
    ensures AllFull(DataOf(acts)) && sent == |DataOf(acts)| * MSS
  {
    var (all, left) := (mem[..n * MSS], mem[sent..n * MSS]);
    FullChunks(all, n);
    forall i | 0 <= i < |DataOf(acts)|
      ensures DataOf(acts)[i] == Chunks(all)[i]
    {
      assert DataOf(acts)[i] == (DataOf(acts) + Chunks(left))[i];
    }
    ChunksCarryData(all);
    ChunksCarryData(left);
    PayloadsConcat(DataOf(acts), Chunks(left));
    FullPayloads(DataOf(acts));
  }

  /**
   A write of full packets with nothing in flight, a window of `w` bytes and no
   acknowledgement or time-out meanwhile: it sleeps after exactly
   `w / (2 * MSS) + 1` packets, or has sent all of its fewer ones.  A window
   smaller than a packet counts as 4 GB more.
   */
  lemma WriteOnWindow(s0: Snd, s: Snd, acts: seq<Act>, mem: seq<Byte>, n: nat, sent: nat)
    requires s0.inflight == 0 && s0.wnd < U32
    requires sent <= n * MSS <= |mem| && Written(s0, s, acts, mem, n * MSS, sent, [])
    ensures var b := (if s0.wnd < MSS then s0.wnd + U32 else s0.wnd) / (2 * MSS) + 1;
            match ViewAfter(s0, acts)
            case Shut => sent == b * MSS
            case Open => sent < b * MSS
            case Unseen => 0 < sent <= b * MSS
  {
    SentIsPackets(s0, s, acts, mem, n, sent);
    ActsAreFull(acts);
    PacedOnWindow(s0, acts);
  }
}
