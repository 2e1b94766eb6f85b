/** The console fan-out: a bounded replay buffer and subscribers that may lag. */
module Replay {
  /** The bytes of a line. */
  type Line = seq<bv8>

  const HISTORY_LINES := 500
  const HISTORY_BYTES := 48 * 1024
  const CHANNEL_SIZE := 256

  /** Bytes held, counting a line end for each line. */
  function Size(lines: seq<Line>): nat {
    if lines == [] then 0 else |lines[0]| + 1 + Size(lines[1..])
  }

  /** Within both bounds; a single line may exceed the byte budget. */
  predicate Fits(lines: seq<Line>) {
    |lines| <= HISTORY_LINES && (Size(lines) <= HISTORY_BYTES || |lines| <= 1)
  }

  /** The longest suffix within the bounds, found by dropping from the front. */
  function Kept(stream: seq<Line>): (r: seq<Line>)
    ensures Fits(r) && |r| <= |stream| && r == stream[|stream| - |r|..]
  {
    if Fits(stream) then stream else Kept(stream[1..])
  }

  lemma {:induction false} SuffixFits(lines: seq<Line>, k: nat)
    requires k <= |lines| && Fits(lines)
    ensures Fits(lines[k..])
    decreases k
  {
    if k > 0 {
      SuffixFits(lines[1..], k - 1);
      assert lines[1..][k - 1..] == lines[k..];
    }
  }

  /** No longer suffix is within the bounds. */
  lemma {:induction false} KeptIsLongest(stream: seq<Line>, k: nat)
    requires k <= |stream| && Fits(stream[k..])
    ensures |stream| - k <= |Kept(stream)|
  {
    if !Fits(stream) && k > 0 {
      assert stream[1..][k - 1..] == stream[k..];
      KeptIsLongest(stream[1..], k - 1);
    } else {
      assert k == 0 ==> stream[k..] == stream;
    }
  }

  /** In full: at most 500 lines and 48 KiB with their line ends, or one line; every longer
      suffix of the stream is over one of them. */
  lemma KeptMeans(stream: seq<Line>, k: nat)
    ensures |Kept(stream)| <= 500 && (Size(Kept(stream)) <= 48 * 1024 || |Kept(stream)| == 1)
    ensures k <= |stream| && |stream| - k > |Kept(stream)| ==>
              |stream[k..]| > 500 || (|stream[k..]| > 1 && Size(stream[k..]) > 48 * 1024)
    ensures Kept(stream) == stream[|stream| - |Kept(stream)|..]
  {
    if k <= |stream| && |stream| - k > |Kept(stream)| && Fits(stream[k..]) { KeptIsLongest(stream, k); }
    hide Kept;
  }

  /** What is kept of a stream that fits with one more line is kept from the front:
      the buffer need not be rebuilt from the whole stream. */
  lemma KeptIncremental(stream: seq<Line>, line: Line)
    ensures Kept(Kept(stream) + [line]) == Kept(stream + [line])
  {
    hide Kept, Fits;
    var all, held := stream + [line], Kept(stream) + [line];
    var n := |stream| - |Kept(stream)|;
    assert all[n..] == held;
    // The longest fitting suffix of the longer stream starts no earlier than the buffer.
    KeptStartsInside(stream, line);
    var k, h := |Kept(all)|, |Kept(held)|;
    SameTail(all, n, k);
    KeptIsLongest(held, |held| - k);
    SameTail(all, n, h);
    KeptIsLongest(all, |all| - h);
  }

  lemma SameTail(all: seq<Line>, n: nat, k: nat)
    requires n <= |all| && k <= |all[n..]|
    ensures all[n..][|all[n..]| - k..] == all[|all| - k..]
  {
  }

  lemma KeptStartsInside(stream: seq<Line>, line: Line)
    ensures |Kept(stream + [line])| <= |Kept(stream)| + 1
  {
    hide Kept, Fits;
    var all := stream + [line];
    var start := |all| - |Kept(all)|;
    if start < |stream| {
      assert all[start..] == stream[start..] + [line];
      PrefixFits(stream[start..], line);
      KeptIsLongest(stream, start);
    }
  }

  lemma PrefixFits(lines: seq<Line>, line: Line)
    requires Fits(lines + [line])
    ensures Fits(lines)
  {
    SizeConcat(lines, [line]);
    assert [line][1..] == [];
  }

  lemma {:induction false} SizeConcat(a: seq<Line>, b: seq<Line>)
    ensures Size(a + b) == Size(a) + Size(b)
  {
    if a == [] {
      assert a + b == b;
    } else {
      SizeConcat(a[1..], b);
      assert (a + b)[1..] == a[1..] + b;
    }
  }

  lemma OneMore(lines: seq<Line>, line: Line)
    ensures Size(lines + [line]) == Size(lines) + |line| + 1
  {
    SizeConcat(lines, [line]);
    assert [line][1..] == [];
  }

  lemma KeptStep(lines: seq<Line>)
    ensures if |lines| > HISTORY_LINES || (Size(lines) > HISTORY_BYTES && |lines| > 1)
            then Kept(lines) == Kept(lines[1..]) && Size(lines[1..]) == Size(lines) - (|lines[0]| + 1)
            else Kept(lines) == lines
  {
  }

  // ----- delivery ------------------------------------------------------------

  /** `a` can be obtained from `b` by leaving lines out. */
  predicate Subsequence(a: seq<Line>, b: seq<Line>)
    decreases |b|
  {
    if a == [] then true
    else if b == [] then false
    else
      var a', b' := a[..|a| - 1], b[..|b| - 1];
      (a[|a| - 1] == b[|b| - 1] && Subsequence(a', b')) || Subsequence(a, b')
  }

  lemma SubsequenceGrows(a: seq<Line>, b: seq<Line>, line: Line)
    requires Subsequence(a, b)
    ensures Subsequence(a, b + [line]) && Subsequence(a + [line], b + [line])
  {
  }

  /** `f` says which lines of `b` make up `a`, in their order. */
  predicate Embeds(f: seq<nat>, a: seq<Line>, b: seq<Line>) {
    && |f| == |a| && (forall i :: 0 <= i < |f| ==> f[i] < |b| && b[f[i]] == a[i])
    && forall i, j :: 0 <= i < j < |f| ==> f[i] < f[j]
  }

  lemma {:induction false} EmbeddingOf(a: seq<Line>, b: seq<Line>) returns (f: seq<nat>)
    requires Subsequence(a, b)
    ensures Embeds(f, a, b)
    decreases |b|
  {
    if a == [] {
      f := [];
    } else if a[|a| - 1] == b[|b| - 1] && Subsequence(a[..|a| - 1], b[..|b| - 1]) {
      f := EmbeddingOf(a[..|a| - 1], b[..|b| - 1]);
      f := f + [|b| - 1];
    } else {
      f := EmbeddingOf(a, b[..|b| - 1]);
    }
  }

  /** A subscriber's side of the stream: where it joined, what it was replayed, what
      it has received since, and how many lines were dropped because it lagged. */
  datatype Journal = Journal(joined: nat, snapshot: seq<Line>, received: seq<Line>, dropped: nat)

  /** Snapshot, received and queued lines against the stream of visible lines. */
  predicate Faithful(stream: seq<Line>, j: Journal, queue: seq<Line>) {
    && j.joined <= |stream| && |queue| <= CHANNEL_SIZE
    && j.snapshot == Kept(stream[..j.joined])
    && |j.received| + |queue| + j.dropped == |stream| - j.joined
    && Subsequence(j.received + queue, stream[j.joined..])
    && (j.dropped == 0 ==> j.received + queue == stream[j.joined..])
  }

  /** When nothing was dropped, replay and live lines are one unbroken piece of the stream. */
  lemma NothingMissed(stream: seq<Line>, j: Journal, queue: seq<Line>)
    requires Faithful(stream, j, queue) && j.dropped == 0
    ensures var n := j.joined - |j.snapshot|;
            0 <= n && j.snapshot + j.received + queue == stream[n..]
  {
    hide Kept, Subsequence;
    var n := j.joined - |j.snapshot|;
    assert j.snapshot == stream[..j.joined][n..] == stream[n..j.joined];
    assert j.snapshot + j.received + queue == j.snapshot + (j.received + queue);
    assert stream[n..] == stream[n..j.joined] + stream[j.joined..];
  }

  /** In full: the snapshot is what was kept when it joined, and what it received and has
      queued are lines of the stream since then, in order, all but the dropped ones. */
  lemma FaithfulMeans(stream: seq<Line>, j: Journal, queue: seq<Line>)
    requires Faithful(stream, j, queue)
    ensures j.joined <= |stream| && j.snapshot == Kept(stream[..j.joined])
    ensures |j.received| + |queue| == |stream| - j.joined - j.dropped && |queue| <= 256
    ensures exists f: seq<nat> :: Embeds(f, j.received + queue, stream[j.joined..])
  {
    hide Kept;
    var f := EmbeddingOf(j.received + queue, stream[j.joined..]);
  }

  lemma DeliveredStaysFaithful(stream: seq<Line>, j: Journal, queue: seq<Line>, line: Line)
    requires Faithful(stream, j, queue)
    ensures |queue| < CHANNEL_SIZE ==> Faithful(stream + [line], j, queue + [line])
    ensures Faithful(stream + [line], j.(dropped := j.dropped + 1), queue)
  {
    hide Kept, Subsequence;
    var next := stream + [line];
    var tail, got := stream[j.joined..], j.received + queue;
    assert next[..j.joined] == stream[..j.joined];
    assert next[j.joined..] == tail + [line];
    assert j.received + (queue + [line]) == got + [line];
    SubsequenceGrows(got, tail, line);
  }

  lemma JoinsFaithfully(stream: seq<Line>, replay: seq<Line>)
    requires replay == Kept(stream)
    ensures Faithful(stream, Journal(|stream|, replay, [], 0), [])
  {
    EmptySubsequence();
    hide Kept, Subsequence;
    var none: seq<Line> := [];
    assert none + none == none;
    assert stream[..|stream|] == stream;
    assert stream[|stream|..] == none;
  }

  lemma EmptySubsequence()
    ensures Subsequence([], [])
  {
  }

  lemma ReceivesFaithfully(stream: seq<Line>, j: Journal, queue: seq<Line>)
    requires Faithful(stream, j, queue) && queue != []
    ensures Faithful(stream, j.(received := j.received + [queue[0]]), queue[1..])
  {
    hide Kept, Subsequence;
    assert j.received + [queue[0]] + queue[1..] == j.received + queue;
  }

  datatype Channel = Channel(id: int)

  class Console {
    var history: seq<Line>
    var historySize: int
    var subs: map<Channel, seq<Line>>  // each subscriber's buffered channel
    ghost var stream: seq<Line>        // every visible line so far
    ghost var journals: map<Channel, Journal>

    ghost predicate Valid()
      reads this
    {
      && history == Kept(stream) && historySize == Size(history)
      && subs.Keys == journals.Keys
      && forall c :: c in subs ==> Faithful(stream, journals[c], subs[c])
    }

    constructor ()
      ensures Valid() && stream == [] && subs == map[]
    {
      history, historySize, subs, stream, journals := [], 0, map[], [], map[];
    }

    method Broadcast(line: Line)
      requires Valid()
      modifies this
      ensures Valid() && stream == old(stream) + [line]
      ensures history == Kept(stream) && historySize == Size(history)
      ensures subs.Keys == old(subs.Keys)
      ensures forall c :: c in subs ==>
                if |old(subs)[c]| < CHANNEL_SIZE
                then subs[c] == old(subs)[c] + [line] && journals[c] == old(journals)[c]
                else subs[c] == old(subs)[c]
                     && journals[c] == old(journals)[c].(dropped := old(journals)[c].dropped + 1)
    {
      hide Faithful, Kept, Size;
      Append(line);
      var todo := subs.Keys;
      while todo != {}
        invariant todo <= subs.Keys == old(subs.Keys) && journals.Keys == subs.Keys
        invariant forall c :: c in todo ==> subs[c] == old(subs)[c] && journals[c] == old(journals)[c]
        invariant forall c :: c in subs && c !in todo ==>
                    if |old(subs)[c]| < CHANNEL_SIZE
                    then subs[c] == old(subs)[c] + [line] && journals[c] == old(journals)[c]
                    else subs[c] == old(subs)[c]
                         && journals[c] == old(journals)[c].(dropped := old(journals)[c].dropped + 1)
        invariant history == Kept(old(stream) + [line]) && historySize == Size(history)
        invariant stream == old(stream) + [line]
        decreases todo
      {
        var c :| c in todo;
        todo := todo - {c};
        if |subs[c]| < CHANNEL_SIZE {
          subs := subs[c := subs[c] + [line]];
        } else {
          journals := journals[c := journals[c].(dropped := journals[c].dropped + 1)];
        }
      }
      forall c | c in subs ensures Faithful(stream, journals[c], subs[c]) {
        DeliveredStaysFaithful(old(stream), old(journals)[c], old(subs)[c], line);
      }
    }

    /** The first half of `broadcast`: append, then drop from the front. */
    method Append(line: Line)
      requires history == Kept(stream) && historySize == Size(history)
      modifies this`history, this`historySize, this`stream
      ensures stream == old(stream) + [line]
      ensures history == Kept(stream) && historySize == Size(history)
    {
      hide Fits, Kept, Size;
      OneMore(history, line);
      KeptIncremental(stream, line);
      stream := stream + [line];
      history := history + [line];
      historySize := historySize + |line| + 1;
      while |history| > HISTORY_LINES || (historySize > HISTORY_BYTES && |history| > 1)
        invariant stream == old(stream) + [line]
        invariant Kept(history) == Kept(stream) && historySize == Size(history)
        decreases |history|
      {
        KeptStep(history);
        historySize := historySize - (|history[0]| + 1);
        history := history[1..];
      }
      KeptStep(history);
    }

    method Subscribe(c: Channel) returns (replay: seq<Line>)
      requires Valid() && c !in subs
      modifies this
      ensures Valid() && stream == old(stream) && history == old(history)
      ensures replay == Kept(stream)
      ensures subs == old(subs)[c := []]
      ensures journals == old(journals)[c := Journal(|stream|, replay, [], 0)]
    {
      hide Faithful, Kept, Size;
      JoinsFaithfully(stream, history);
      replay := history;
      subs := subs[c := []];
      journals := journals[c := Journal(|stream|, replay, [], 0)];
    }

    method Receive(c: Channel) returns (line: Line)
      requires Valid() && c in subs && subs[c] != []
      modifies this`subs, this`journals
      ensures Valid() && line == old(subs)[c][0]
      ensures subs == old(subs)[c := old(subs)[c][1..]]
      ensures journals == old(journals)[c := old(journals)[c].(received := old(journals)[c].received + [line])]
    {
      hide Faithful, Kept, Size;
      line := subs[c][0];
      ReceivesFaithfully(stream, journals[c], subs[c]);
      subs := subs[c := subs[c][1..]];
      journals := journals[c := journals[c].(received := journals[c].received + [line])];
    }

    method Cancel(c: Channel)
      requires Valid()
      modifies this`subs, this`journals
      ensures Valid() && subs == old(subs) - {c} && journals == old(journals) - {c}
    {
      hide Faithful, Kept, Size;
      subs := subs - {c};
      journals := journals - {c};
    }
  }
}
