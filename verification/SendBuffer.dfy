/**
  The per-client send buffer: bounded, first in first out, and a replaceable
  message takes the place of a queued tail of its own type.
 */
module SendBuffer {
  import opened Text

  const DEFAULT_MAX_ITEMS: nat := 64
  const DEFAULT_MAX_BYTES: nat := 4 * 1024 * 1024

  datatype Message<B> = Message(kind: string, isReplaceable: bool, size: nat, body: B)

  datatype RejectReason = Closed | ItemLimit | ByteLimit | CoalesceByteLimit
  datatype PushResult = Rejected(reason: RejectReason) | Queued | Coalesced

  datatype State<B> = State(items: seq<Message<B>>, bytes: nat, maxItems: nat, maxBytes: nat, closed: bool)

  function Bytes<B>(items: seq<Message<B>>): nat {
    if items == [] then 0 else Bytes(items[1..]) + items[0].size
  }

  predicate Replaces<B>(items: seq<Message<B>>, m: Message<B>) {
    m.isReplaceable && items != [] && items[|items| - 1].isReplaceable && items[|items| - 1].kind == m.kind
  }

  function Push<B>(s: State<B>, m: Message<B>): (State<B>, PushResult)
    requires s.bytes == Bytes(s.items)
  {
    if s.closed then (s, Rejected(Closed))
    else if Replaces(s.items, m) then
      var n := |s.items| - 1;
      LastFits(s.items);
      var next := s.bytes - s.items[n].size + m.size;
      if next > s.maxBytes then (s, Rejected(CoalesceByteLimit))
      else (s.(items := s.items[..n] + [m], bytes := next), Coalesced)
    else if |s.items| >= s.maxItems then (s, Rejected(ItemLimit))
    else if s.bytes + m.size > s.maxBytes then (s, Rejected(ByteLimit))
    else (s.(items := s.items + [m], bytes := s.bytes + m.size), Queued)
  }

  function Pop<B>(s: State<B>): (State<B>, Option<Message<B>>)
    requires s.bytes == Bytes(s.items)
  {
    if s.items == [] then (s, None)
    else (s.(items := s.items[1..], bytes := s.bytes - s.items[0].size), Some(s.items[0]))
  }

  lemma {:induction false} BytesAppend<B>(xs: seq<Message<B>>, ys: seq<Message<B>>)
    ensures Bytes(xs + ys) == Bytes(xs) + Bytes(ys)
    decreases |xs|
  {
    if xs == [] {
      assert xs + ys == ys;
    } else {
      assert (xs + ys)[1..] == xs[1..] + ys;
      BytesAppend(xs[1..], ys);
    }
  }

  lemma BytesOne<B>(m: Message<B>)
    ensures Bytes([m]) == m.size
  {
    assert [m][1..] == [];
  }

  lemma LastFits<B>(items: seq<Message<B>>)
    requires items != []
    ensures Bytes(items) == Bytes(items[..|items| - 1]) + items[|items| - 1].size
  {
    var n := |items| - 1;
    assert items == items[..n] + [items[n]];
    BytesAppend(items[..n], [items[n]]);
    BytesOne(items[n]);
  }

  predicate Valid<B>(s: State<B>) { s.bytes == Bytes(s.items) <= s.maxBytes && |s.items| <= s.maxItems }

  lemma PushKeeps<B>(s: State<B>, m: Message<B>)
    requires Valid(s)
    ensures Valid(Push(s, m).0) && (Push(s, m).1.Rejected? ==> Push(s, m).0 == s)
  {
    BytesAppend(s.items, [m]);
    BytesOne(m);
    if s.items != [] {
      LastFits(s.items);
      BytesAppend(s.items[..|s.items| - 1], [m]);
    }
  }

  /** The buffer itself. */
  class Buffer<B> {
    var items: seq<Message<B>>
    var bytes: nat
    const maxItems: nat
    const maxBytes: nat
    var closed: bool

    function Value(): State<B>
      reads this
    {
      State(items, bytes, maxItems, maxBytes, closed)
    }

    constructor (items: nat, bytes: nat)
      ensures Valid(Value()) && Value() == State([], 0, items, bytes, false)
    {
      this.items, this.bytes, maxItems, maxBytes, closed := [], 0, items, bytes, false;
    }

    method PushTyped(m: Message<B>) returns (result: PushResult)
      requires Valid(Value())
      modifies this
      ensures Valid(Value()) && (Value(), result) == Push(old(Value()), m)
    {
      PushKeeps(Value(), m);
      if closed { return Rejected(Closed); }
      if m.isReplaceable && items != [] {
        var tail := items[|items| - 1];
        if tail.isReplaceable && tail.kind == m.kind {
          LastFits(items);
          var nextBytes := bytes - tail.size + m.size;
          if nextBytes > maxBytes { return Rejected(CoalesceByteLimit); }
          bytes, items := nextBytes, items[..|items| - 1] + [m];
          return Coalesced;
        }
      }
      if |items| >= maxItems { return Rejected(ItemLimit); }
      if bytes + m.size > maxBytes { return Rejected(ByteLimit); }
      bytes, items := bytes + m.size, items + [m];
      result := Queued;
    }

    method PopFront() returns (popped: Option<Message<B>>)
      requires Valid(Value())
      modifies this
      ensures Valid(Value()) && (Value(), popped) == Pop(old(Value()))
    {
      if items == [] { return None; }
      popped := Some(items[0]);
      bytes, items := bytes - items[0].size, items[1..];
    }

    method Close()
      modifies this`closed
      ensures Value() == old(Value()).(closed := true)
    {
      closed := true;
    }
  }

  /**
    A push is rejected exactly when the buffer is closed, or what would be queued is over a budget; then
    nothing changes. Otherwise the message is queued last, in the place of a replaceable one of its type.
   */
  lemma PushExactly<B>(s: State<B>, m: Message<B>)
    requires Valid(s)
    ensures var (next, result) := Push(s, m);
            var n := |s.items|;
            var swaps := n > 0 && s.items[n - 1].isReplaceable && m.isReplaceable && s.items[n - 1].kind == m.kind;
            var queued := (if swaps then s.items[..n - 1] else s.items) + [m];
            && (result.Rejected? <==> s.closed || |queued| > s.maxItems || Bytes(queued) > s.maxBytes)
            && (result.Rejected? ==> next == s)
            && (!result.Rejected? ==> next == s.(items := queued, bytes := Bytes(queued)))
            && (result.Coalesced? ==> swaps) && (result.Queued? ==> !swaps)
  {
    var n := |s.items|;
    BytesOne(m);
    BytesAppend(s.items, [m]);
    if n > 0 {
      LastFits(s.items);
      BytesAppend(s.items[..n - 1], [m]);
    }
  }

  // ---- what coalescing means to a client ----

  function Fold<B, C>(receive: (C, Message<B>) -> C, client: C, items: seq<Message<B>>): C {
    if items == [] then client else
      var n := |items| - 1;
      receive(Fold(receive, client, items[..n]), items[n])
  }

  lemma {:induction false} FoldFirst<B, C>(receive: (C, Message<B>) -> C, client: C, items: seq<Message<B>>)
    requires items != []
    ensures Fold(receive, client, items) == Fold(receive, receive(client, items[0]), items[1..])
    decreases |items|
  {
    var n := |items| - 1;
    if n == 0 {
      assert items[..0] == [] && items[1..] == [];
    } else {
      FoldFirst(receive, client, items[..n]);
      assert items[..n][1..] == items[1..][..n - 1];
    }
  }

  datatype Step<B> = Pushing(message: Message<B>) | Popping | Closing

  /** The buffer, what the client made of the messages it got, and what it would have made of every one admitted. */
  datatype World<B, C> = World(buffer: State<B>, client: C, meant: C)

  function Next<B, C>(receive: (C, Message<B>) -> C, w: World<B, C>, step: Step<B>): World<B, C>
    requires Valid(w.buffer)
  {
    match step
    case Pushing(m) =>
      var (buffer, result) := Push(w.buffer, m);
      World(buffer, w.client, if result.Rejected? then w.meant else receive(w.meant, m))
    case Popping =>
      var (buffer, popped) := Pop(w.buffer);
      World(buffer, if popped.Some? then receive(w.client, popped.value) else w.client, w.meant)
    case Closing => w.(buffer := w.buffer.(closed := true))
  }

  /** Among the messages a relay sends, a replaceable one makes an earlier one of its type irrelevant. */
  ghost predicate Supersedes<B(!new), C(!new)>(receive: (C, Message<B>) -> C, sent: Message<B> -> bool) {
    forall client: C, a: Message<B>, b: Message<B> ::
      sent(a) && sent(b) && a.isReplaceable && b.isReplaceable && a.kind == b.kind ==>
        receive(receive(client, a), b) == receive(client, b)
  }

  /** What is queued is all the client still lacks. */
  predicate Whole<B, C(==)>(receive: (C, Message<B>) -> C, w: World<B, C>) {
    Valid(w.buffer) && Fold(receive, w.client, w.buffer.items) == w.meant
  }

  predicate Owes<B, C(==)>(receive: (C, Message<B>) -> C, sent: Message<B> -> bool, w: World<B, C>) {
    Whole(receive, w) && forall i :: 0 <= i < |w.buffer.items| ==> sent(w.buffer.items[i])
  }

  /** If the step replaces a queued message, the client will be none the wiser. */
  predicate Harmless<B, C(==)>(receive: (C, Message<B>) -> C, w: World<B, C>, step: Step<B>)
    requires Valid(w.buffer)
  {
    step.Pushing? && Push(w.buffer, step.message).1.Coalesced? ==>
      var n := |w.buffer.items| - 1;
      var before := Fold(receive, w.client, w.buffer.items[..n]);
      receive(receive(before, w.buffer.items[n]), step.message) == receive(before, step.message)
  }

  lemma FoldSnoc<B, C>(receive: (C, Message<B>) -> C, client: C, items: seq<Message<B>>, m: Message<B>)
    ensures Fold(receive, client, items + [m]) == receive(Fold(receive, client, items), m)
  {
    assert (items + [m])[..|items|] == items;
  }

  /** A step loses nothing exactly when it is harmless. */
  lemma NextWholeExactly<B, C>(receive: (C, Message<B>) -> C, w: World<B, C>, step: Step<B>)
    requires Whole(receive, w)
    ensures Whole(receive, Next(receive, w, step)) <==> Harmless(receive, w, step)
  {
    match step
    case Pushing(m) =>
      PushKeeps(w.buffer, m);
      FoldSnoc(receive, w.client, w.buffer.items, m);
      if Replaces(w.buffer.items, m) { FoldSnoc(receive, w.client, w.buffer.items[..|w.buffer.items| - 1], m); }
    case Popping =>
      if w.buffer.items != [] { FoldFirst(receive, w.client, w.buffer.items); }
    case Closing =>
  }

  lemma NextOwes<B(!new), C(!new)>(
    receive: (C, Message<B>) -> C, sent: Message<B> -> bool, w: World<B, C>, step: Step<B>)
    requires Supersedes(receive, sent) && Owes(receive, sent, w) && (step.Pushing? ==> sent(step.message))
    ensures Owes(receive, sent, Next(receive, w, step))
  {
    NextWholeExactly(receive, w, step);
  }

  function Run<B, C>(receive: (C, Message<B>) -> C, w: World<B, C>, steps: seq<Step<B>>): (after: World<B, C>)
    requires Valid(w.buffer)
    ensures Valid(after.buffer)
    decreases |steps|
  {
    if steps == [] then w else
      var before := Run(receive, w, steps[..|steps| - 1]);
      NextIsValid(receive, before, steps[|steps| - 1]);
      Next(receive, before, steps[|steps| - 1])
  }

  lemma NextIsValid<B, C>(receive: (C, Message<B>) -> C, w: World<B, C>, step: Step<B>)
    requires Valid(w.buffer)
    ensures Valid(Next(receive, w, step).buffer)
  {
    if step.Pushing? { PushKeeps(w.buffer, step.message); }
  }

  /** In every run, once the buffer is drained the client stands where all admitted messages would have brought it. */
  lemma {:induction false} CoalescingKeepsMeaning<B(!new), C(!new)>(
    receive: (C, Message<B>) -> C, sent: Message<B> -> bool, w: World<B, C>, steps: seq<Step<B>>)
    requires Supersedes(receive, sent) && Owes(receive, sent, w)
    requires forall i :: 0 <= i < |steps| && steps[i].Pushing? ==> sent(steps[i].message)
    ensures var after := Run(receive, w, steps);
            Owes(receive, sent, after) && (after.buffer.items == [] ==> after.client == after.meant)
    decreases |steps|
  {
    if steps != [] {
      var n := |steps| - 1;
      CoalescingKeepsMeaning(receive, sent, w, steps[..n]);
      NextOwes(receive, sent, Run(receive, w, steps[..n]), steps[n]);
    }
  }

  /** Along every run nothing is ever lost if and only if every step is harmless when it comes. */
  lemma {:induction false} RunIsWholeExactly<B, C>(
    receive: (C, Message<B>) -> C, w: World<B, C>, steps: seq<Step<B>>)
    requires Whole(receive, w)
    ensures (forall k: nat | k <= |steps| :: Whole(receive, Run(receive, w, steps[..k]))) <==>
            (forall k: nat | k < |steps| :: Harmless(receive, Run(receive, w, steps[..k]), steps[k]))
  {
    assert steps[..0] == [];
    if forall k: nat | k <= |steps| :: Whole(receive, Run(receive, w, steps[..k])) {
      forall k: nat | k < |steps| ensures Harmless(receive, Run(receive, w, steps[..k]), steps[k]) {
        assert steps[..k + 1][..k] == steps[..k];
        assert Whole(receive, Run(receive, w, steps[..k])) && Whole(receive, Run(receive, w, steps[..k + 1]));
        NextWholeExactly(receive, Run(receive, w, steps[..k]), steps[k]);
      }
    }
    if forall k: nat | k < |steps| :: Harmless(receive, Run(receive, w, steps[..k]), steps[k]) {
      forall k: nat | k <= |steps| ensures Whole(receive, Run(receive, w, steps[..k])) {
        HarmlessIsWhole(receive, w, steps, k);
      }
    }
  }

  lemma {:induction false} HarmlessIsWhole<B, C>(
    receive: (C, Message<B>) -> C, w: World<B, C>, steps: seq<Step<B>>, k: nat)
    requires Whole(receive, w) && k <= |steps|
    requires forall j: nat | j < |steps| :: Harmless(receive, Run(receive, w, steps[..j]), steps[j])
    ensures Whole(receive, Run(receive, w, steps[..k]))
  {
    if k > 0 {
      HarmlessIsWhole(receive, w, steps, k - 1);
      assert steps[..k][..k - 1] == steps[..k - 1];
      assert Harmless(receive, Run(receive, w, steps[..k - 1]), steps[k - 1]);
      NextWholeExactly(receive, Run(receive, w, steps[..k - 1]), steps[k - 1]);
    }
  }

  /** And only then: two messages that do not supersede lose the first of them. */
  lemma CoalescingNeedsSuperseding<B, C>(
    receive: (C, Message<B>) -> C, client: C, a: Message<B>, b: Message<B>, maxItems: nat, maxBytes: nat)
    requires a.isReplaceable && b.isReplaceable && a.kind == b.kind
    requires receive(receive(client, a), b) != receive(client, b)
    requires maxItems >= 1 && a.size <= maxBytes && b.size <= maxBytes
    ensures var w := World(State([], 0, maxItems, maxBytes, false), client, client);
            var after := Run(receive, w, [Pushing(a), Pushing(b), Popping]);
            after.buffer.items == [] && after.client != after.meant
  {
    var w := World(State([], 0, maxItems, maxBytes, false), client, client);
    var steps := [Pushing(a), Pushing(b), Popping];
    assert steps[..2] == [Pushing(a), Pushing(b)] && steps[..2][..1] == [Pushing(a)] && [Pushing(a)][..0] == [];
    BytesOne(a);
    var one := Next(receive, w, Pushing(a));
    assert one.buffer.items == [a] && Run(receive, w, steps[..2][..1]) == one;
    assert [a][..0] == [];
    var two := Next(receive, one, Pushing(b));
    assert two.buffer.items == [b] && Run(receive, w, steps[..2]) == two;
    assert [b][1..] == [];
  }
}
