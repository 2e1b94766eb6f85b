/** Backup retention: which backups `Prune` deletes and which it must keep. */
module Retention {
  import opened Text

  const DAY_SECONDS := 86400

  /** What is at the archive's path; Irregular is a link or no plain file. */
  datatype Archive = Present | Missing | Irregular

  /** A catalog row. */
  datatype Record = Record(id: string, created: int, size: nat, verified: bool, pinned: bool, archive: Archive)

  datatype Limits = Limits(maxCount: int, maxAgeDays: int, maxStorageMB: int)

  predicate DistinctIds(recs: seq<Record>) {
    forall i, j :: 0 <= i < j < |recs| ==> recs[i].id != recs[j].id
  }

  predicate OldestFirst(recs: seq<Record>) {
    forall i, j :: 0 <= i < j < |recs| ==> recs[i].created <= recs[j].created
  }

  function Verified(recs: seq<Record>): (n: nat)
    ensures n <= |recs|
  {
    if recs == [] then 0 else (if recs[0].verified then 1 else 0) + Verified(recs[1..])
  }

  function Bytes(recs: seq<Record>): nat {
    if recs == [] then 0 else recs[0].size + Bytes(recs[1..])
  }

  lemma {:induction false} SumsConcat(a: seq<Record>, b: seq<Record>)
    ensures Verified(a + b) == Verified(a) + Verified(b) && Bytes(a + b) == Bytes(a) + Bytes(b)
  {
    if a == [] {
      assert a + b == b;
    } else {
      SumsConcat(a[1..], b);
      assert (a + b)[1..] == a[1..] + b;
    }
  }

  /** Taking one record out changes the sums by that record. */
  lemma SumsWithout(a: seq<Record>, r: Record, b: seq<Record>)
    ensures Verified(a + [r] + b) == Verified(a + b) + if r.verified then 1 else 0
    ensures Bytes(a + [r] + b) == Bytes(a + b) + r.size
  {
    SumsConcat(a, [r] + b);
    SumsConcat([r], b);
    SumsConcat(a, b);
    assert a + [r] + b == a + ([r] + b) && [r][1..] == [];
  }

  lemma {:induction false} SomeVerified(recs: seq<Record>)
    ensures Verified(recs) > 0 <==> exists r :: r in recs && r.verified
  {
    if recs != [] {
      SomeVerified(recs[1..]);
      assert recs == [recs[0]] + recs[1..];
    }
  }

  // ----- sorting -------------------------------------------------------------

  /** The same records, each once. */
  ghost predicate SameRecords(a: seq<Record>, b: seq<Record>) {
    |a| == |b| && DistinctIds(a) && (forall r :: r in a <==> r in b)
  }

  /** The records oldest first; the order of equally old ones is not specified. */
  method SortByAge(recs: seq<Record>) returns (sorted: seq<Record>)
    requires DistinctIds(recs)
    ensures OldestFirst(sorted) && SameRecords(sorted, recs)
  {
    hide OldestFirst, SameRecords, DistinctIds;
    sorted := [];
    NothingSorted(recs);
    for i := 0 to |recs|
      invariant OldestFirst(sorted) && SameRecords(sorted, recs[..i])
    {
      var k := |sorted|;
      while k > 0 && sorted[k - 1].created > recs[i].created
        invariant 0 <= k <= |sorted|
        invariant forall j :: k <= j < |sorted| ==> sorted[j].created > recs[i].created
      {
        k := k - 1;
      }
      InsertKeeps(recs, i, sorted, k);
      InsertOrdered(sorted, k, recs[i]);
      sorted := sorted[..k] + [recs[i]] + sorted[k..];
    }
    assert recs[..|recs|] == recs;
  }

  lemma NothingSorted(recs: seq<Record>)
    ensures OldestFirst([]) && SameRecords([], recs[..0])
  {
  }

  lemma InsertOrdered(sorted: seq<Record>, k: nat, x: Record)
    requires k <= |sorted| && OldestFirst(sorted)
    requires k > 0 ==> sorted[k - 1].created <= x.created
    requires forall j :: k <= j < |sorted| ==> sorted[j].created > x.created
    ensures OldestFirst(sorted[..k] + [x] + sorted[k..])
  {
  }

  lemma InsertKeeps(recs: seq<Record>, i: nat, sorted: seq<Record>, k: nat)
    requires DistinctIds(recs) && i < |recs| && k <= |sorted| && SameRecords(sorted, recs[..i])
    ensures SameRecords(sorted[..k] + [recs[i]] + sorted[k..], recs[..i + 1])
  {
    InsertMembers(sorted, k, recs[i]);
    forall r | r in sorted ensures r.id != recs[i].id {
      assert r in recs[..i];
    }
    InsertDistinct(sorted, k, recs[i]);
    assert recs[..i + 1] == recs[..i] + [recs[i]];
    hide DistinctIds;
  }

  lemma InsertDistinct(sorted: seq<Record>, k: nat, x: Record)
    requires k <= |sorted| && DistinctIds(sorted) && forall r :: r in sorted ==> r.id != x.id
    ensures DistinctIds(sorted[..k] + [x] + sorted[k..])
  {
    var next := sorted[..k] + [x] + sorted[k..];
    forall m, n | 0 <= m < n < |next| ensures next[m].id != next[n].id {
      assert next[m] == if m < k then sorted[m] else if m == k then x else sorted[m - 1];
      assert next[n] == if n < k then sorted[n] else if n == k then x else sorted[n - 1];
    }
  }

  lemma InsertMembers(sorted: seq<Record>, k: nat, x: Record)
    requires k <= |sorted|
    ensures forall r :: r in sorted[..k] + [x] + sorted[k..] <==> r in sorted || r == x
  {
  }

  // ----- pruning -------------------------------------------------------------

  /** `p.MaxStorageMB << 20` on 64 bits. */
  function StorageLimit(p: Limits): int {
    Wrap64(p.maxStorageMB * 0x100000)
  }

  /** Why a record may go, given what is left at that moment. */
  predicate HasReason(p: Limits, now: int, r: Record, remaining: int, totalBytes: int) {
    || (p.maxAgeDays > 0 && OverAge(p, now, r))
    || (p.maxCount > 0 && remaining > p.maxCount)
    || (p.maxStorageMB > 0 && totalBytes > StorageLimit(p))
  }

  predicate OverAge(p: Limits, now: int, r: Record) {
    r.created < now - p.maxAgeDays * DAY_SECONDS
  }

  /** Protected and unverified backups are never deleted. */
  predicate Removable(r: Record) { !r.pinned && r.verified }

  /** What is left of the sorted records when `gone` marks the deleted ones so far. */
  function Left(recs: seq<Record>, gone: seq<bool>): (r: seq<Record>)
    requires |gone| <= |recs|
    ensures |r| <= |recs|
  {
    if gone == [] then recs
    else (if gone[0] then [] else [recs[0]]) + Left(recs[1..], gone[1..])
  }

  /** Deciding one more record splits what is left around it. */
  lemma {:induction false} LeftStep(recs: seq<Record>, gone: seq<bool>, g: bool)
    returns (a: seq<Record>, b: seq<Record>)
    requires |gone| < |recs|
    ensures Left(recs, gone) == a + [recs[|gone|]] + b
    ensures Left(recs, gone + [g]) == if g then a + b else a + [recs[|gone|]] + b
  {
    hide *;
    var r := recs[|gone|];
    LeftFront(recs, gone);
    LeftFront(recs, gone + [g]);
    if gone == [] {
      a, b := [], recs[1..];
      LeftFront(b, []);
      OneDecision(recs, g);
    } else {
      a, b := LeftStep(recs[1..], gone[1..], g);
      var head := if gone[0] then [] else [recs[0]];
      assert (gone + [g])[1..] == gone[1..] + [g];
      HeadJoins(head, a, r, b);
      a := head + a;
    }
  }

  lemma OneDecision(recs: seq<Record>, g: bool)
    requires recs != []
    ensures recs == [] + [recs[0]] + recs[1..] && ([] + [g])[1..] == [] && ([] + [g])[0] == g
    ensures [] + recs[1..] == recs[1..] && [recs[0]] + recs[1..] == [] + [recs[0]] + recs[1..]
  {
  }

  lemma LeftFront(recs: seq<Record>, gone: seq<bool>)
    requires |gone| <= |recs|
    ensures Left(recs, gone) ==
            if gone == [] then recs else (if gone[0] then [] else [recs[0]]) + Left(recs[1..], gone[1..])
  {
  }

  lemma HeadJoins(head: seq<Record>, a: seq<Record>, r: Record, b: seq<Record>)
    ensures head + (a + [r] + b) == (head + a) + [r] + b && head + (a + b) == (head + a) + b
  {
  }

  lemma {:induction false} LeftMembers(recs: seq<Record>, gone: seq<bool>)
    requires |gone| == |recs|
    ensures forall r :: r in Left(recs, gone) <==> exists i :: 0 <= i < |recs| && !gone[i] && recs[i] == r
  {
    if recs != [] {
      var tail, g := recs[1..], gone[1..];
      LeftMembers(tail, g);
      forall r ensures r in Left(recs, gone) <==> exists i :: 0 <= i < |recs| && !gone[i] && recs[i] == r {
        if i :| 0 <= i < |recs| && !gone[i] && recs[i] == r {
          if i > 0 { assert tail[i - 1] == r && !g[i - 1]; }
        }
        if j :| 0 <= j < |tail| && !g[j] && tail[j] == r {
          assert recs[j + 1] == r && !gone[j + 1];
        }
      }
    }
  }

  /** Decision `i` of a pass over the sorted records was taken on the true state of
      what was left at that moment; `broken` are the backups that cannot be deleted. */
  predicate Decided(recs: seq<Record>, p: Limits, now: int, broken: set<string>, gone: seq<bool>, i: nat)
    requires i < |gone| <= |recs|
  {
    var left := Left(recs, gone[..i]);
    gone[i] <==>
      HasReason(p, now, recs[i], |left|, Bytes(left)) && Removable(recs[i]) && Verified(left) > 1
      && recs[i].id !in broken
  }

  predicate IsPass(recs: seq<Record>, p: Limits, now: int, broken: set<string>, gone: seq<bool>) {
    |gone| <= |recs| && forall i :: 0 <= i < |gone| ==> Decided(recs, p, now, broken, gone, i)
  }

  class Catalog {
    var rows: seq<Record>

    /** `Delete`: refuses what is missing, unavailable or protected; for a broken
        backup it fails before it has removed anything. */
    method Delete(id: string, broken: set<string>) returns (ok: bool)
      modifies this
      ensures DistinctIds(old(rows)) ==>
                (ok <==> id !in broken && exists r :: r in old(rows) && r.id == id && !r.pinned && r.archive.Present?)
      ensures ok ==> exists i :: 0 <= i < |old(rows)| && old(rows)[i].id == id
                                 && rows == old(rows)[..i] + old(rows)[i + 1..]
      ensures !ok ==> rows == old(rows)
    {
      var k := 0;
      while k < |rows| && rows[k].id != id
        invariant 0 <= k <= |rows| && rows == old(rows)
        invariant forall j :: 0 <= j < k ==> rows[j].id != id
      {
        k := k + 1;
      }
      if k == |rows| || !rows[k].archive.Present? || rows[k].pinned || id in broken { return false; }
      assert rows[k] in rows;
      rows := rows[..k] + rows[k + 1..];
      ok := true;
    }

    /** `List`: the rows whose archive is present; an irregular one is an error. */
    method List() returns (recs: Option<seq<Record>>)
      ensures recs.None? <==> exists r :: r in rows && r.archive.Irregular?
      ensures recs.Some? ==> recs.value == Available(rows)
    {
      var out: seq<Record> := [];
      for i := 0 to |rows|
        invariant out == Available(rows[..i])
        invariant forall j :: 0 <= j < i ==> !rows[j].archive.Irregular?
      {
        assert rows[..i + 1][..i] == rows[..i];
        if rows[i].archive.Irregular? {
          assert rows[i] in rows;
          return None;
        }
        if rows[i].archive.Present? { out := out + [rows[i]]; }
      }
      assert rows[..|rows|] == rows;
      recs := Some(out);
    }

    /** `Prune`: delete for age, count or storage, oldest first, with running counters.
        If the listing fails nothing is deleted. */
    method Prune(p: Limits, now: int, broken: set<string>)
      returns (listed: bool, deleted: seq<string>, ghost sorted: seq<Record>, ghost gone: seq<bool>)
      requires DistinctIds(rows)
      modifies this
      ensures listed <==> forall r :: r in old(rows) ==> !r.archive.Irregular?
      ensures !listed ==> deleted == [] && rows == old(rows)
      ensures listed ==> OldestFirst(sorted) && SameRecords(sorted, Available(old(rows)))
      ensures listed ==> IsPass(sorted, p, now, broken, gone) && |gone| == |sorted|
      ensures listed ==> forall id :: id in deleted <==> exists i :: 0 <= i < |sorted| && gone[i] && sorted[i].id == id
      ensures DistinctIds(rows)
      ensures forall r :: r in rows <==> r in old(rows) && r.id !in deleted
    {
      hide Left, Verified, Bytes, Decided, HasReason, IsPass, SameRecords, OldestFirst, Available, StorageLimit;
      var listing := List();
      if listing.None? { return false, [], [], []; }
      listed := true;
      var recs := listing.value;
      AvailableKeepsIds(rows);
      recs := SortByAge(recs);
      SortedIds(recs, rows);
      sorted, gone := recs, [];
      var validCount, totalBytes := Totals(recs);
      deleted := [];
      var remaining := |recs|;
      EmptyPass(recs, p, now, broken);
      for i := 0 to |recs|
        invariant |gone| == i && IsPass(recs, p, now, broken, gone)
        invariant validCount == Verified(Left(recs, gone))
        invariant remaining == |Left(recs, gone)| && totalBytes == Bytes(Left(recs, gone))
        invariant forall id :: id in deleted <==> exists j :: 0 <= j < i && gone[j] && recs[j].id == id
        invariant DistinctIds(rows)
        invariant forall r :: r in rows <==> r in old(rows) && r.id !in deleted
      {
        var r := recs[i];
        var ok := false;
        ghost var before := rows;
        if HasReason(p, now, r, remaining, totalBytes) && Removable(r) && validCount > 1 {
          assert r in rows;
          ok := Delete(r.id, broken);
          if ok {
            RemovedFrom(before, rows, r.id);
            deleted := deleted + [r.id];
          }
        }
        CountersStep(recs, gone, ok);
        PassGrows(recs, p, now, broken, gone, ok);
        gone := gone + [ok];
        if ok {
          validCount := validCount - 1;
          remaining := remaining - 1;
          totalBytes := totalBytes - r.size;
        }
      }
    }
  }

  lemma SortedIds(sorted: seq<Record>, rows: seq<Record>)
    requires DistinctIds(rows) && SameRecords(sorted, Available(rows))
    ensures DistinctIds(sorted) && forall r :: r in sorted <==> r in rows && r.archive.Present?
  {
    AvailableKeepsIds(rows);
  }

  /** The counting loops in front of the pass. */
  method Totals(recs: seq<Record>) returns (validCount: int, totalBytes: int)
    ensures validCount == Verified(recs) && totalBytes == Bytes(recs)
  {
    validCount, totalBytes := 0, 0;
    for i := 0 to |recs|
      invariant validCount == Verified(recs[..i]) && totalBytes == Bytes(recs[..i])
    {
      SumsWithout(recs[..i], recs[i], []);
      assert recs[..i] + [] == recs[..i];
      assert recs[..i] + [recs[i]] + [] == recs[..i + 1];
      if recs[i].verified { validCount := validCount + 1; }
      totalBytes := totalBytes + recs[i].size;
    }
    assert recs[..|recs|] == recs;
  }

  lemma EmptyPass(recs: seq<Record>, p: Limits, now: int, broken: set<string>)
    ensures IsPass(recs, p, now, broken, []) && Left(recs, []) == recs
  {
  }

  /** The counters after one decision. */
  lemma CountersStep(recs: seq<Record>, gone: seq<bool>, g: bool)
    requires |gone| < |recs|
    ensures var r, before, after := recs[|gone|], Left(recs, gone), Left(recs, gone + [g]);
            if g then
              && |after| == |before| - 1 && Bytes(after) == Bytes(before) - r.size
              && Verified(after) == Verified(before) - if r.verified then 1 else 0
            else after == before
  {
    var a, b := LeftStep(recs, gone, g);
    SumsWithout(a, recs[|gone|], b);
  }

  function Available(rows: seq<Record>): seq<Record> {
    if rows == [] then []
    else Available(rows[..|rows| - 1]) + if rows[|rows| - 1].archive.Present? then [rows[|rows| - 1]] else []
  }

  lemma {:induction false} AvailableKeepsIds(rows: seq<Record>)
    requires DistinctIds(rows)
    ensures DistinctIds(Available(rows))
    ensures forall r :: r in Available(rows) <==> r in rows && r.archive.Present?
  {
    if rows != [] {
      var front, last := rows[..|rows| - 1], rows[|rows| - 1];
      AvailableKeepsIds(front);
      assert rows == front + [last];
      assert forall r :: r in Available(front) ==> r.id != last.id;
    }
  }

  lemma RemovedFrom(before: seq<Record>, after: seq<Record>, id: string)
    requires DistinctIds(before)
    requires exists i :: 0 <= i < |before| && before[i].id == id && after == before[..i] + before[i + 1..]
    ensures DistinctIds(after)
    ensures forall r :: r in after <==> r in before && r.id != id
  {
  }

  lemma PassGrows(recs: seq<Record>, p: Limits, now: int, broken: set<string>, gone: seq<bool>, g: bool)
    requires IsPass(recs, p, now, broken, gone) && |gone| < |recs|
    requires var left, r := Left(recs, gone), recs[|gone|];
             g <==> HasReason(p, now, r, |left|, Bytes(left)) && Removable(r) && Verified(left) > 1 && r.id !in broken
    ensures IsPass(recs, p, now, broken, gone + [g])
  {
    var next := gone + [g];
    assert next[..|gone|] == gone;
    forall i | 0 <= i < |next| ensures Decided(recs, p, now, broken, next, i) {
      if i < |gone| {
        assert next[..i] == gone[..i];
        assert Decided(recs, p, now, broken, gone, i);
      }
    }
  }

  // ----- what a pass guarantees ----------------------------------------------

  /** Over a pass the three counts only go down. */
  lemma {:induction false} CountsShrink(recs: seq<Record>, gone: seq<bool>, i: nat)
    requires i <= |gone| <= |recs|
    ensures var before, after := Left(recs, gone[..i]), Left(recs, gone);
            |after| <= |before| && Bytes(after) <= Bytes(before) && Verified(after) <= Verified(before)
    decreases |gone| - i
  {
    if i < |gone| {
      CountsShrink(recs, gone, i + 1);
      assert gone[..i + 1] == gone[..i] + [gone[i]];
      CountersStep(recs, gone[..i], gone[i]);
    } else {
      assert gone[..i] == gone;
    }
  }

  /** Only unprotected, verified backups are deleted, and one verified backup stays. */
  lemma {:induction false} KeepsOneVerified(recs: seq<Record>, p: Limits, now: int, broken: set<string>,
                                            gone: seq<bool>)
    requires IsPass(recs, p, now, broken, gone)
    ensures forall i :: 0 <= i < |gone| && gone[i] ==> recs[i].verified && !recs[i].pinned
    ensures Verified(recs) > 0 ==> Verified(Left(recs, gone)) > 0
  {
    forall i | 0 <= i < |gone| && gone[i] ensures Removable(recs[i]) {
      assert Decided(recs, p, now, broken, gone, i);
    }
    KeepsOneVerifiedTo(recs, p, now, broken, gone, |gone|);
    assert gone[..|gone|] == gone;
  }

  lemma {:induction false} KeepsOneVerifiedTo(recs: seq<Record>, p: Limits, now: int,
                                    broken: set<string>, gone: seq<bool>, n: nat)
    requires IsPass(recs, p, now, broken, gone) && n <= |gone|
    ensures Verified(recs) > 0 ==> Verified(Left(recs, gone[..n])) > 0
  {
    if n > 0 {
      KeepsOneVerifiedTo(recs, p, now, broken, gone, n - 1);
      assert Decided(recs, p, now, broken, gone, n - 1);
      assert gone[..n] == gone[..n - 1] + [gone[n - 1]];
      CountersStep(recs, gone[..n - 1], gone[n - 1]);
    }
  }

  /** A record that is still exceeding some limit at the end was kept for a reason. */
  lemma PruneIsComplete(recs: seq<Record>, p: Limits, now: int, broken: set<string>, gone: seq<bool>, i: nat)
    requires IsPass(recs, p, now, broken, gone) && |gone| == |recs| && i < |recs| && !gone[i]
    requires var left := Left(recs, gone); HasReason(p, now, recs[i], |left|, Bytes(left))
    ensures recs[i].pinned || !recs[i].verified || recs[i].id in broken || Verified(Left(recs, gone)) <= 1
  {
    assert Decided(recs, p, now, broken, gone, i);
    CountsShrink(recs, gone, i);
  }

  /** After a pass each limit holds in its own terms, unless one verified backup is left, or
      all that is left is protected, unverified or cannot be deleted: no more backups than
      the count limit ... */
  lemma CountIsEnforced(recs: seq<Record>, p: Limits, now: int, broken: set<string>, gone: seq<bool>)
    requires IsPass(recs, p, now, broken, gone) && |gone| == |recs| && p.maxCount > 0
    ensures |Left(recs, gone)| <= p.maxCount || Verified(Left(recs, gone)) <= 1
            || forall r :: r in Left(recs, gone) ==> r.pinned || !r.verified || r.id in broken
  {
    LeftMembers(recs, gone);
    hide Left, IsPass;
    if |Left(recs, gone)| > p.maxCount {
      forall i | 0 <= i < |recs| && !gone[i]
        ensures recs[i].pinned || !recs[i].verified || recs[i].id in broken || Verified(Left(recs, gone)) <= 1
      {
        PruneIsComplete(recs, p, now, broken, gone, i);
      }
    }
  }

  /** ... no more bytes than the megabytes of the storage limit ... */
  lemma StorageIsEnforced(recs: seq<Record>, p: Limits, now: int, broken: set<string>, gone: seq<bool>)
    requires IsPass(recs, p, now, broken, gone) && |gone| == |recs| && 0 < p.maxStorageMB < 0x800_0000_0000
    ensures Bytes(Left(recs, gone)) <= p.maxStorageMB * 0x100000 || Verified(Left(recs, gone)) <= 1
            || forall r :: r in Left(recs, gone) ==> r.pinned || !r.verified || r.id in broken
  {
    LeftMembers(recs, gone);
    StorageLimitIsExactIff(p);
    hide Left, IsPass, StorageLimit, Bytes;
    if Bytes(Left(recs, gone)) > p.maxStorageMB * 0x100000 {
      forall i | 0 <= i < |recs| && !gone[i]
        ensures recs[i].pinned || !recs[i].verified || recs[i].id in broken || Verified(Left(recs, gone)) <= 1
      {
        PruneIsComplete(recs, p, now, broken, gone, i);
      }
    }
  }

  /** ... and none made before the age limit. */
  lemma AgeIsEnforced(recs: seq<Record>, p: Limits, now: int, broken: set<string>, gone: seq<bool>, r: Record)
    requires IsPass(recs, p, now, broken, gone) && |gone| == |recs| && p.maxAgeDays > 0
    requires r in Left(recs, gone) && r.created < now - p.maxAgeDays * 24 * 60 * 60
    ensures Verified(Left(recs, gone)) <= 1 || r.pinned || !r.verified || r.id in broken
  {
    LeftMembers(recs, gone);
    hide Left, IsPass;
    var i :| 0 <= i < |recs| && !gone[i] && recs[i] == r;
    PruneIsComplete(recs, p, now, broken, gone, i);
  }

  /** A backup is deleted only for its age, or while a limit is exceeded by what is left
      at that moment, and while another verified one is left. */
  lemma DeletedForReason(recs: seq<Record>, p: Limits, now: int, broken: set<string>, gone: seq<bool>, i: nat)
    requires IsPass(recs, p, now, broken, gone) && i < |gone| && gone[i]
    ensures var left := Left(recs, gone[..i]);
            && recs[i].verified && !recs[i].pinned && Verified(left) > 1
            && (|| (p.maxAgeDays > 0 && recs[i].created < now - p.maxAgeDays * 24 * 60 * 60)
                || (p.maxCount > 0 && |left| > p.maxCount)
                || (p.maxStorageMB > 0 && Bytes(left) > Wrap64(p.maxStorageMB * 1024 * 1024)))
  {
    assert Decided(recs, p, now, broken, gone, i);
  }

  /** Deletions go oldest first: before a backup is deleted, every older one that may
      be deleted has been, or cannot be. */
  lemma OldestGoFirst(recs: seq<Record>, p: Limits, now: int, broken: set<string>, gone: seq<bool>, i: nat, j: nat)
    requires OldestFirst(recs) && IsPass(recs, p, now, broken, gone) && i < j < |gone| && gone[j]
    ensures gone[i] || recs[i].id in broken || recs[i].pinned || !recs[i].verified
  {
    assert Decided(recs, p, now, broken, gone, i) && Decided(recs, p, now, broken, gone, j);
    CountsShrink(recs, gone[..j], i);
    assert gone[..j][..i] == gone[..i];
  }

  /** A count limit alone never goes below the limit. */
  lemma {:induction false} CountIsNotOverrun(recs: seq<Record>, p: Limits, now: int,
                                    broken: set<string>, gone: seq<bool>, n: nat)
    requires IsPass(recs, p, now, broken, gone) && n <= |gone|
    requires p.maxCount > 0 && p.maxAgeDays <= 0 && p.maxStorageMB <= 0
    ensures var left := |Left(recs, gone[..n])|; left >= p.maxCount || left == |recs|
  {
    if n > 0 {
      CountIsNotOverrun(recs, p, now, broken, gone, n - 1);
      assert Decided(recs, p, now, broken, gone, n - 1);
      assert gone[..n] == gone[..n - 1] + [gone[n - 1]];
      CountersStep(recs, gone[..n - 1], gone[n - 1]);
    }
  }

  /** The storage limit means its megabytes exactly when the shift stays in 64 bits. */
  lemma StorageLimitIsExactIff(p: Limits)
    requires 0 < p.maxStorageMB <= MAX_INT64
    ensures StorageLimit(p) == p.maxStorageMB * 0x100000 <==> p.maxStorageMB < 0x800_0000_0000
  {
  }

  /** A limit of 2^44 megabytes wraps to zero bytes, which every backup exceeds. */
  lemma HugeLimitMeansNone(now: int, r: Record, remaining: nat, totalBytes: int)
    ensures var p := Limits(0, 0, 0x1000_0000_0000);
            StorageLimit(p) == 0 && (HasReason(p, now, r, remaining, totalBytes) <==> totalBytes > 0)
  {
  }
}
