/**
 * `seq_mapping` of the receive queue (packet_queue.h): which sequence number replaces which.
 * Following it ends from everywhere exactly when it has no cycle.
 */
module SeqMapping {
  import opened Bytes

  type Mapping = map<u16, u16>

  /** `n` steps along the mapping exist from `s`. */
  predicate Walks(m: Mapping, s: u16, n: nat)
    decreases n
  {
    n == 0 || (s in m && Walks(m, m[s], n - 1))
  }

  function Walk(m: Mapping, s: u16, n: nat): u16
    requires Walks(m, s, n)
    decreases n
  {
    if n == 0 then s else Walk(m, m[s], n - 1)
  }

  ghost predicate Acyclic(m: Mapping) {
    forall s: u16, n: nat :: n > 0 && Walks(m, s, n) ==> Walk(m, s, n) != s
  }

  /** Within `k` steps there is nothing more to follow. */
  predicate Ends(m: Mapping, s: u16, k: nat)
    decreases k
  {
    s !in m || (k > 0 && Ends(m, m[s], k - 1))
  }

  function Follow(m: Mapping, s: u16, k: nat): (r: u16)
    requires Ends(m, s, k)
    ensures r !in m
    decreases k
  {
    if s !in m then s else Follow(m, m[s], k - 1)
  }

  lemma {:induction false} FollowSame(m: Mapping, s: u16, j: nat, k: nat)
    requires Ends(m, s, j) && Ends(m, s, k)
    ensures Follow(m, s, j) == Follow(m, s, k)
    decreases j
  {
    if s in m {
      FollowSame(m, m[s], j - 1, k - 1);
    }
  }

  // ---------------------------------------------------------------- no cycle: following ends

  ghost predicate Trail(m: Mapping, trail: seq<u16>, s: u16) {
    && (forall i :: 0 <= i < |trail| ==> trail[i] in m)
    && (forall i :: 0 <= i < |trail| - 1 ==> m[trail[i]] == trail[i + 1])
    && (trail != [] ==> m[trail[|trail| - 1]] == s)
    && (forall i, j :: 0 <= i < j < |trail| ==> trail[i] != trail[j])
  }

  lemma {:induction false} TrailWalk(m: Mapping, trail: seq<u16>, s: u16, i: nat)
    requires Trail(m, trail, s) && i <= |trail|
    ensures var from := if i < |trail| then trail[i] else s;
            Walks(m, from, |trail| - i) && Walk(m, from, |trail| - i) == s
    decreases |trail| - i
  {
    if i < |trail| {
      TrailWalk(m, trail, s, i + 1);
    }
  }

  lemma {:induction false} TrailSize(m: Mapping, trail: seq<u16>, keys: set<u16>)
    requires forall i :: 0 <= i < |trail| ==> trail[i] in keys
    requires forall i, j :: 0 <= i < j < |trail| ==> trail[i] != trail[j]
    ensures |trail| <= |keys|
    decreases |trail|
  {
    if trail != [] {
      TrailSize(m, trail[1..], keys - {trail[0]});
    }
  }

  /** A walk that has not met itself yet is at most as long as the mapping is large. */
  lemma {:induction false} Escapes(m: Mapping, trail: seq<u16>, s: u16)
    requires Acyclic(m) && Trail(m, trail, s)
    ensures |trail| <= |m| && Ends(m, s, |m| - |trail|)
    decreases |m| - |trail|
  {
    TrailSize(m, trail, m.Keys);
    if s in m {
      forall i | 0 <= i < |trail|
        ensures trail[i] != s
      {
        TrailWalk(m, trail, s, i);
        assert Walk(m, trail[i], |trail| - i) == s;
      }
      var longer := trail + [s];
      forall i | 0 <= i < |longer| - 1
        ensures m[longer[i]] == longer[i + 1]
      {
        assert longer[i] == trail[i];
        if i + 1 < |trail| {
          assert m[trail[i]] == trail[i + 1];
        }
      }
      TrailSize(m, longer, m.Keys);
      Escapes(m, longer, m[s]);
    }
  }

  lemma {:induction false} EndsAfter(m: Mapping, s: u16, k: nat, n: nat)
    requires Ends(m, s, k) && Walks(m, s, n)
    ensures n <= k && Ends(m, Walk(m, s, n), k - n)
    decreases n
  {
    if n > 0 {
      EndsAfter(m, m[s], k - 1, n - 1);
    }
  }

  lemma {:induction false} CycleNeverEnds(m: Mapping, s: u16, n: nat, k: nat)
    requires n > 0 && Walks(m, s, n) && Walk(m, s, n) == s
    ensures !Ends(m, s, k)
    decreases k
  {
    if Ends(m, s, k) {
      EndsAfter(m, s, k, n);
      CycleNeverEnds(m, s, n, k - n);
    }
  }

  ghost predicate Terminates(m: Mapping, s: u16) {
    exists k: nat :: Ends(m, s, k)
  }

  /** The loop of `resolve_seq` ends from every number exactly when the mapping has no cycle. */
  lemma EndsEverywhereExactlyWhenAcyclic(m: Mapping)
    ensures Acyclic(m) <==> forall s: u16 :: Terminates(m, s)
  {
    if Acyclic(m) {
      forall s: u16
        ensures Terminates(m, s)
      {
        Escapes(m, [], s);
        assert Ends(m, s, |m|);
      }
    } else {
      var s: u16, n: nat :| n > 0 && Walks(m, s, n) && Walk(m, s, n) == s;
      forall k: nat
        ensures !Ends(m, s, k)
      {
        CycleNeverEnds(m, s, n, k);
      }
      assert !Terminates(m, s);
    }
  }

  /** What `resolve_seq` returns: the last number of the chain. */
  ghost function Resolve(m: Mapping, s: u16): (r: u16)
    requires Acyclic(m)
    ensures r !in m
  {
    Escapes(m, [], s);
    Follow(m, s, |m|)
  }

  lemma ResolveIs(m: Mapping, s: u16, k: nat)
    requires Acyclic(m) && Ends(m, s, k)
    ensures Resolve(m, s) == Follow(m, s, k)
  {
    Escapes(m, [], s);
    FollowSame(m, s, k, |m|);
  }

  lemma {:induction false} SubWalk(m: Mapping, less: Mapping, s: u16, n: nat)
    requires less.Keys <= m.Keys && (forall x :: x in less ==> less[x] == m[x])
    requires Walks(less, s, n)
    ensures Walks(m, s, n) && Walk(m, s, n) == Walk(less, s, n)
    decreases n
  {
    if n > 0 {
      SubWalk(m, less, less[s], n - 1);
    }
  }

  /** Dropping entries, as `clear_range` and `move_seq` do, makes no cycle. */
  lemma DroppingKeepsAcyclic(m: Mapping, dropped: set<u16>)
    requires Acyclic(m)
    ensures Acyclic(m - dropped)
  {
    forall s: u16, n: nat | n > 0 && Walks(m - dropped, s, n)
      ensures Walk(m - dropped, s, n) != s
    {
      SubWalk(m, m - dropped, s, n);
    }
  }
}
