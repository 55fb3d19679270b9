/** Removal of duplicate field definitions from a field-definition tree.

    A node's fully qualified name is its parent's qualified name, a dot, and
    its own name; the top level uses the empty prefix, so top-level names
    start with a dot (".a"). Names are plain strings: a top-level field
    literally named "a.b" has the same qualified name as the child "b" of a
    group "a". */
module Dedup {
  import opened Documents

  function QName(prefix: string, name: string): string
  {
    prefix + "." + name
  }

  /** The qualified names of a sibling list, in document order. */
  function QNames(fs: seq<Field>, prefix: string): (r: seq<string>)
    ensures |r| == |fs|
    ensures forall i :: 0 <= i < |fs| ==> r[i] == QName(prefix, fs[i].name)
  {
    seq(|fs|, i requires 0 <= i < |fs| => QName(prefix, fs[i].name))
  }

  /** `deduplicate(fs, prefix, seen)`: walk the siblings in order; a node
      whose qualified name is already in `seen` is dropped together with its
      subtree; a kept group has its children deduplicated under its own
      qualified name, seeded with the names seen so far at this level; the
      kept node's name is then added to `seen`. Names found inside a child
      call are not added to the caller's `seen`. */
  function Dedup(fs: seq<Field>, prefix: string, seen: seq<string>): (r: seq<Field>)
    ensures |r| <= |fs|
    ensures forall i :: 0 <= i < |r| ==> QName(prefix, r[i].name) !in seen
    ensures forall i, j :: 0 <= i < j < |r| ==> QName(prefix, r[i].name) != QName(prefix, r[j].name)
    decreases fs
  {
    if |fs| == 0 then []
    else
      var f := fs[0];
      var q := QName(prefix, f.name);
      var rest := fs[1..];
      if q in seen then Dedup(rest, prefix, seen)
      else
        var kept := if f.kind == GroupKind then f.(fields := Dedup(f.fields, q, seen)) else f;
        var tail := Dedup(rest, prefix, seen + [q]);
        [kept] + tail
  }

  /** What deduplication emits for a node it keeps: the node itself, with a
      group's children deduplicated under `q` against `seen`. */
  function Emitted(f: Field, q: string, seen: seq<string>): Field
  {
    if f.kind == GroupKind then f.(fields := Dedup(f.fields, q, seen)) else f
  }

  /** The seed that node `i` of a sibling list is checked against: the
      caller's seed followed by the qualified names of the nodes before it.
      Names found inside earlier siblings' subtrees are not part of it. */
  function SeedAt(fs: seq<Field>, prefix: string, seen: seq<string>, i: nat): seq<string>
    requires i <= |fs|
  {
    seen + QNames(fs[..i], prefix)
  }

  /** Moving past the first sibling moves its qualified name into the seed. */
  lemma SeedAtStep(fs: seq<Field>, prefix: string, seen: seq<string>, i: nat)
    requires i < |fs|
    ensures SeedAt(fs, prefix, seen, i + 1) == SeedAt(fs[1..], prefix, seen + [QName(prefix, fs[0].name)], i)
  {
    assert fs[..i + 1] == [fs[0]] + fs[1..][..i];
    assert QNames(fs[..i + 1], prefix) == [QName(prefix, fs[0].name)] + QNames(fs[1..][..i], prefix);
  }

  lemma SeedAtZero(fs: seq<Field>, prefix: string, seen: seq<string>)
    ensures SeedAt(fs, prefix, seen, 0) == seen
  {
    assert fs[..0] == [];
  }

  /** Node `i` is the first sibling carrying its qualified name, and that name
      is not in the seed list. */
  ghost predicate FirstFresh(fs: seq<Field>, prefix: string, seen: seq<string>, i: int)
    requires 0 <= i < |fs|
  {
    QName(prefix, fs[i].name) !in SeedAt(fs, prefix, seen, i)
  }

  /** Moving past the first sibling: node `i + 1` of `fs` is first-fresh
      exactly when node `i` of the rest is, against the seed extended by the
      first sibling's name. */
  lemma FirstFreshStep(fs: seq<Field>, prefix: string, seen: seq<string>, i: nat)
    requires i + 1 < |fs|
    ensures FirstFresh(fs, prefix, seen, i + 1) <==> FirstFresh(fs[1..], prefix, seen + [QName(prefix, fs[0].name)], i)
  {
    SeedAtStep(fs, prefix, seen, i);
    assert fs[i + 1] == fs[1..][i];
  }

  /** Adding a name the seed already holds changes nothing. */
  lemma FirstFreshRedundantSeed(fs: seq<Field>, prefix: string, seen: seq<string>, q: string, i: nat)
    requires i < |fs| && q in seen
    ensures FirstFresh(fs, prefix, seen + [q], i) <==> FirstFresh(fs, prefix, seen, i)
  {
    assert SeedAt(fs, prefix, seen + [q], i) == seen + [q] + QNames(fs[..i], prefix);
  }

  /** A tree with no duplicates left: sibling names are distinct and not in
      the seed, and each group's children are clean under the group's name,
      seeded with the seed plus the names of the group's preceding siblings. */
  ghost predicate Clean(fs: seq<Field>, prefix: string, seen: seq<string>)
    decreases fs
  {
    && (forall i :: 0 <= i < |fs| ==> QName(prefix, fs[i].name) !in seen)
    && (forall i, j :: 0 <= i < j < |fs| ==> QName(prefix, fs[i].name) != QName(prefix, fs[j].name))
    && (forall i :: 0 <= i < |fs| && fs[i].kind == GroupKind ==>
          Clean(fs[i].fields, QName(prefix, fs[i].name), SeedAt(fs, prefix, seen, i)))
  }

  /** The positions `idx` moved one place to the right. */
  function Shift(idx: seq<nat>): (r: seq<nat>)
    ensures |r| == |idx|
    ensures forall k :: 0 <= k < |idx| ==> r[k] == idx[k] + 1
  {
    seq(|idx|, k requires 0 <= k < |idx| => idx[k] + 1)
  }

  /** Position 0 followed by the positions `idx` moved one place to the right. */
  function ConsShift(idx: seq<nat>): (r: seq<nat>)
    ensures |r| == |idx| + 1 && r[0] == 0
    ensures forall k :: 1 <= k <= |idx| ==> r[k] == idx[k - 1] + 1
  {
    seq(|idx| + 1, k requires 0 <= k <= |idx| => if k == 0 then 0 else idx[k - 1] + 1)
  }

  /** Only the membership of the seed list matters, not its order or
      repetitions. */
  lemma {:induction false} DedupSeedAsSet(fs: seq<Field>, prefix: string, s1: seq<string>, s2: seq<string>)
    requires forall x :: x in s1 <==> x in s2
    ensures Dedup(fs, prefix, s1) == Dedup(fs, prefix, s2)
    decreases fs
  {
    if |fs| > 0 {
      var q := QName(prefix, fs[0].name);
      if q !in s1 {
        DedupSeedAsSet(fs[0].fields, q, s1, s2);
        DedupSeedAsSet(fs[1..], prefix, s1 + [q], s2 + [q]);
      } else {
        DedupSeedAsSet(fs[1..], prefix, s1, s2);
      }
    }
  }

  /** `idx` is a strictly increasing list of positions of a list of length `n`. */
  ghost predicate Positions(idx: seq<nat>, n: nat)
  {
    && (forall k :: 0 <= k < |idx| ==> idx[k] < n)
    && (forall k1, k2 :: 0 <= k1 < k2 < |idx| ==> idx[k1] < idx[k2])
  }

  /** `idx` holds exactly the first-fresh positions of `fs`. */
  ghost predicate AllFirstFresh(fs: seq<Field>, prefix: string, seen: seq<string>, idx: seq<nat>)
    requires Positions(idx, |fs|)
  {
    && (forall k :: 0 <= k < |idx| ==> FirstFresh(fs, prefix, seen, idx[k]))
    && (forall i :: 0 <= i < |fs| && FirstFresh(fs, prefix, seen, i) ==> i in idx)
  }

  /** `r[k]` is what deduplication emits for input node `idx[k]`: the node,
      with a group's children deduplicated against that node's seed. */
  ghost predicate EmitsAt(fs: seq<Field>, prefix: string, seen: seq<string>, r: seq<Field>, idx: seq<nat>)
    requires Positions(idx, |fs|)
  {
    && |r| == |idx|
    && forall k :: 0 <= k < |idx| ==>
         r[k] == Emitted(fs[idx[k]], QName(prefix, fs[idx[k]].name), SeedAt(fs, prefix, seen, idx[k]))
  }

  lemma ShiftPositions(idx': seq<nat>, n: nat)
    requires Positions(idx', n)
    ensures Positions(Shift(idx'), n + 1)
    ensures Positions(ConsShift(idx'), n + 1)
  {
    var c := ConsShift(idx');
    forall k1, k2 | 0 <= k1 < k2 < |c|
      ensures c[k1] < c[k2]
    {
      if k1 > 0 {
        assert c[k1] == idx'[k1 - 1] + 1 && c[k2] == idx'[k2 - 1] + 1;
      }
    }
  }

  lemma FirstFreshAfterSeen(fs: seq<Field>, prefix: string, seen: seq<string>, idx': seq<nat>)
    requires |fs| > 0 && QName(prefix, fs[0].name) in seen
    requires Positions(idx', |fs| - 1) && AllFirstFresh(fs[1..], prefix, seen, idx')
    ensures Positions(Shift(idx'), |fs|) && AllFirstFresh(fs, prefix, seen, Shift(idx'))
  {
    ShiftPositions(idx', |fs| - 1);
    DroppedPositionsFirstFresh(fs, prefix, seen, idx');
    FirstFreshPositionsDropped(fs, prefix, seen, idx');
  }

  lemma DroppedPositionsFirstFresh(fs: seq<Field>, prefix: string, seen: seq<string>, idx': seq<nat>)
    requires |fs| > 0 && QName(prefix, fs[0].name) in seen
    requires forall k :: 0 <= k < |idx'| ==> idx'[k] < |fs| - 1
    requires forall k :: 0 <= k < |idx'| ==> FirstFresh(fs[1..], prefix, seen, idx'[k])
    ensures forall k :: 0 <= k < |Shift(idx')| ==> Shift(idx')[k] < |fs| && FirstFresh(fs, prefix, seen, Shift(idx')[k])
  {
    var idx := Shift(idx');
    forall k | 0 <= k < |idx|
      ensures idx[k] < |fs| && FirstFresh(fs, prefix, seen, idx[k])
    {
      FirstFreshStep(fs, prefix, seen, idx'[k]);
      FirstFreshRedundantSeed(fs[1..], prefix, seen, QName(prefix, fs[0].name), idx'[k]);
    }
  }

  lemma FirstFreshPositionsDropped(fs: seq<Field>, prefix: string, seen: seq<string>, idx': seq<nat>)
    requires |fs| > 0 && QName(prefix, fs[0].name) in seen
    requires forall i :: 0 <= i < |fs| - 1 && FirstFresh(fs[1..], prefix, seen, i) ==> i in idx'
    ensures forall i :: 0 <= i < |fs| && FirstFresh(fs, prefix, seen, i) ==> i in Shift(idx')
  {
    var idx := Shift(idx');
    forall i | 0 <= i < |fs| && FirstFresh(fs, prefix, seen, i)
      ensures i in idx
    {
      if i == 0 {
        SeedAtZero(fs, prefix, seen);
        assert false;
      }
      FirstFreshStep(fs, prefix, seen, i - 1);
      FirstFreshRedundantSeed(fs[1..], prefix, seen, QName(prefix, fs[0].name), i - 1);
      var k :| 0 <= k < |idx'| && idx'[k] == i - 1;
      assert idx[k] == i;
    }
  }

  /** Node `j` of the rest, emitted against its seed, is node `j + 1` of the
      whole list emitted against its own seed, when the first sibling's name
      is already in the seed. */
  lemma EmittedStepSeen(fs: seq<Field>, prefix: string, seen: seq<string>, j: nat)
    requires j + 1 < |fs| && QName(prefix, fs[0].name) in seen
    ensures Emitted(fs[1..][j], QName(prefix, fs[1..][j].name), SeedAt(fs[1..], prefix, seen, j))
         == Emitted(fs[j + 1], QName(prefix, fs[j + 1].name), SeedAt(fs, prefix, seen, j + 1))
  {
    var f := fs[1..][j];
    assert fs[j + 1] == f;
    SeedAtStep(fs, prefix, seen, j);
    var s1 := SeedAt(fs[1..], prefix, seen, j);
    var s2 := SeedAt(fs, prefix, seen, j + 1);
    assert s2 == seen + [QName(prefix, fs[0].name)] + QNames(fs[1..][..j], prefix);
    DedupSeedAsSet(f.fields, QName(prefix, f.name), s1, s2);
  }

  lemma EmitsAfterSeen(fs: seq<Field>, prefix: string, seen: seq<string>, idx': seq<nat>, r: seq<Field>)
    requires |fs| > 0 && QName(prefix, fs[0].name) in seen
    requires Positions(idx', |fs| - 1) && EmitsAt(fs[1..], prefix, seen, r, idx')
    ensures Positions(Shift(idx'), |fs|) && EmitsAt(fs, prefix, seen, r, Shift(idx'))
  {
    ShiftPositions(idx', |fs| - 1);
    var idx := Shift(idx');
    forall k | 0 <= k < |idx|
      ensures r[k] == Emitted(fs[idx[k]], QName(prefix, fs[idx[k]].name), SeedAt(fs, prefix, seen, idx[k]))
    {
      EmittedStepSeen(fs, prefix, seen, idx'[k]);
    }
  }

  lemma FirstFreshAfterKept(fs: seq<Field>, prefix: string, seen: seq<string>, idx': seq<nat>)
    requires |fs| > 0 && QName(prefix, fs[0].name) !in seen
    requires Positions(idx', |fs| - 1)
    requires AllFirstFresh(fs[1..], prefix, seen + [QName(prefix, fs[0].name)], idx')
    ensures Positions(ConsShift(idx'), |fs|) && AllFirstFresh(fs, prefix, seen, ConsShift(idx'))
  {
    ShiftPositions(idx', |fs| - 1);
    KeptPositionsFirstFresh(fs, prefix, seen, idx');
    FirstFreshPositionsKept(fs, prefix, seen, idx');
  }

  lemma KeptPositionsFirstFresh(fs: seq<Field>, prefix: string, seen: seq<string>, idx': seq<nat>)
    requires |fs| > 0 && QName(prefix, fs[0].name) !in seen
    requires forall k :: 0 <= k < |idx'| ==> idx'[k] < |fs| - 1
    requires forall k :: 0 <= k < |idx'| ==> FirstFresh(fs[1..], prefix, seen + [QName(prefix, fs[0].name)], idx'[k])
    ensures forall k :: 0 <= k < |ConsShift(idx')| ==> ConsShift(idx')[k] < |fs| && FirstFresh(fs, prefix, seen, ConsShift(idx')[k])
  {
    var idx := ConsShift(idx');
    forall k | 0 <= k < |idx|
      ensures idx[k] < |fs| && FirstFresh(fs, prefix, seen, idx[k])
    {
      if k == 0 {
        SeedAtZero(fs, prefix, seen);
      } else {
        FirstFreshStep(fs, prefix, seen, idx'[k - 1]);
      }
    }
  }

  lemma FirstFreshPositionsKept(fs: seq<Field>, prefix: string, seen: seq<string>, idx': seq<nat>)
    requires |fs| > 0
    requires forall i :: 0 <= i < |fs| - 1 && FirstFresh(fs[1..], prefix, seen + [QName(prefix, fs[0].name)], i) ==> i in idx'
    ensures forall i :: 0 <= i < |fs| && FirstFresh(fs, prefix, seen, i) ==> i in ConsShift(idx')
  {
    var idx := ConsShift(idx');
    forall i | 0 <= i < |fs| && FirstFresh(fs, prefix, seen, i)
      ensures i in idx
    {
      if i != 0 {
        FirstFreshStep(fs, prefix, seen, i - 1);
        var k :| 0 <= k < |idx'| && idx'[k] == i - 1;
        assert idx[k + 1] == i;
      }
    }
  }

  /** Node `j` of the rest, emitted against its seed under the extended seed,
      is node `j + 1` of the whole list emitted against its own seed. */
  lemma EmittedStep(fs: seq<Field>, prefix: string, seen: seq<string>, j: nat)
    requires j + 1 < |fs|
    ensures Emitted(fs[1..][j], QName(prefix, fs[1..][j].name), SeedAt(fs[1..], prefix, seen + [QName(prefix, fs[0].name)], j))
         == Emitted(fs[j + 1], QName(prefix, fs[j + 1].name), SeedAt(fs, prefix, seen, j + 1))
  {
    SeedAtStep(fs, prefix, seen, j);
    assert fs[1..][j] == fs[j + 1];
  }

  lemma EmitsAfterKept(fs: seq<Field>, prefix: string, seen: seq<string>, idx': seq<nat>, tail: seq<Field>)
    requires |fs| > 0 && QName(prefix, fs[0].name) !in seen
    requires Positions(idx', |fs| - 1)
    requires EmitsAt(fs[1..], prefix, seen + [QName(prefix, fs[0].name)], tail, idx')
    ensures Positions(ConsShift(idx'), |fs|)
    ensures EmitsAt(fs, prefix, seen, [Emitted(fs[0], QName(prefix, fs[0].name), seen)] + tail, ConsShift(idx'))
  {
    ShiftPositions(idx', |fs| - 1);
    var r := [Emitted(fs[0], QName(prefix, fs[0].name), seen)] + tail;
    var idx := ConsShift(idx');
    forall k | 0 <= k < |idx|
      ensures r[k] == Emitted(fs[idx[k]], QName(prefix, fs[idx[k]].name), SeedAt(fs, prefix, seen, idx[k]))
    {
      if k == 0 {
        SeedAtZero(fs, prefix, seen);
      } else {
        assert r[k] == tail[k - 1];
        EmittedStep(fs, prefix, seen, idx'[k - 1]);
      }
    }
  }

  /** Deduplication at one level keeps exactly the first occurrence of each
      qualified name not already in the seed, in document order: `idx` lists
      the kept input positions, strictly increasing, and contains every
      first-fresh position. Each kept node is the input node itself, except
      that a group's children are deduplicated under its qualified name
      against the seed extended by the qualified names of its preceding
      siblings only, never by names found inside those siblings. */
  lemma {:induction false} DedupKeepsFirstOccurrences(fs: seq<Field>, prefix: string, seen: seq<string>)
    returns (idx: seq<nat>)
    ensures Positions(idx, |fs|)
    ensures AllFirstFresh(fs, prefix, seen, idx)
    ensures EmitsAt(fs, prefix, seen, Dedup(fs, prefix, seen), idx)
    decreases fs
  {
    if |fs| == 0 {
      return [];
    }
    var q := QName(prefix, fs[0].name);
    if q in seen {
      var idx' := DedupKeepsFirstOccurrences(fs[1..], prefix, seen);
      FirstFreshAfterSeen(fs, prefix, seen, idx');
      EmitsAfterSeen(fs, prefix, seen, idx', Dedup(fs[1..], prefix, seen));
      idx := Shift(idx');
    } else {
      var idx' := DedupKeepsFirstOccurrences(fs[1..], prefix, seen + [q]);
      FirstFreshAfterKept(fs, prefix, seen, idx');
      EmitsAfterKept(fs, prefix, seen, idx', Dedup(fs[1..], prefix, seen + [q]));
      idx := ConsShift(idx');
    }
  }

  /** The output of deduplication is clean at every depth. */
  lemma {:induction false} DedupIsClean(fs: seq<Field>, prefix: string, seen: seq<string>)
    ensures Clean(Dedup(fs, prefix, seen), prefix, seen)
    decreases fs
  {
    if |fs| > 0 {
      var q := QName(prefix, fs[0].name);
      var rest := fs[1..];
      if q in seen {
        DedupIsClean(rest, prefix, seen);
      } else {
        var r := Dedup(fs, prefix, seen);
        var tail := Dedup(rest, prefix, seen + [q]);
        assert r == [Emitted(fs[0], q, seen)] + tail;
        assert r[1..] == tail;
        DedupIsClean(rest, prefix, seen + [q]);
        forall i | 0 <= i < |r| && r[i].kind == GroupKind
          ensures Clean(r[i].fields, QName(prefix, r[i].name), SeedAt(r, prefix, seen, i))
        {
          if i == 0 {
            SeedAtZero(r, prefix, seen);
            DedupIsClean(fs[0].fields, q, seen);
          } else {
            SeedAtStep(r, prefix, seen, i - 1);
            assert r[i] == tail[i - 1];
          }
        }
      }
    }
  }

  /** The siblings after the first of a clean list are clean against the
      seed extended by the first sibling's name. */
  lemma CleanRest(fs: seq<Field>, prefix: string, seen: seq<string>)
    requires |fs| > 0 && Clean(fs, prefix, seen)
    ensures Clean(fs[1..], prefix, seen + [QName(prefix, fs[0].name)])
  {
    var q := QName(prefix, fs[0].name);
    var rest := fs[1..];
    forall i | 0 <= i < |rest|
      ensures QName(prefix, rest[i].name) !in seen + [q]
    {
      assert fs[i + 1] == rest[i];
    }
    forall i | 0 <= i < |rest| && rest[i].kind == GroupKind
      ensures Clean(rest[i].fields, QName(prefix, rest[i].name), SeedAt(rest, prefix, seen + [q], i))
    {
      SeedAtStep(fs, prefix, seen, i);
      assert fs[i + 1] == rest[i];
    }
    forall i, j | 0 <= i < j < |rest|
      ensures QName(prefix, rest[i].name) != QName(prefix, rest[j].name)
    {
      assert fs[i + 1] == rest[i] && fs[j + 1] == rest[j];
    }
  }

  /** A clean tree is left exactly as it is. */
  lemma {:induction false} CleanIsFixpoint(fs: seq<Field>, prefix: string, seen: seq<string>)
    requires Clean(fs, prefix, seen)
    ensures Dedup(fs, prefix, seen) == fs
    decreases fs
  {
    if |fs| > 0 {
      var q := QName(prefix, fs[0].name);
      var rest := fs[1..];
      assert q !in seen;
      if fs[0].kind == GroupKind {
        SeedAtZero(fs, prefix, seen);
        CleanIsFixpoint(fs[0].fields, q, seen);
      }
      assert Emitted(fs[0], q, seen) == fs[0];
      CleanRest(fs, prefix, seen);
      CleanIsFixpoint(rest, prefix, seen + [q]);
      assert Dedup(fs, prefix, seen) == [fs[0]] + rest;
    }
  }

  /** Deduplication leaves a tree unchanged exactly when the tree is clean. */
  lemma {:induction false} DedupFixpointIffClean(fs: seq<Field>, prefix: string, seen: seq<string>)
    ensures Dedup(fs, prefix, seen) == fs <==> Clean(fs, prefix, seen)
  {
    DedupIsClean(fs, prefix, seen);
    if Clean(fs, prefix, seen) {
      CleanIsFixpoint(fs, prefix, seen);
    }
  }

  /** Deduplicating twice is the same as deduplicating once. */
  lemma {:induction false} DedupIdempotent(fs: seq<Field>, prefix: string, seen: seq<string>)
    ensures Dedup(Dedup(fs, prefix, seen), prefix, seen) == Dedup(fs, prefix, seen)
  {
    DedupIsClean(fs, prefix, seen);
    CleanIsFixpoint(Dedup(fs, prefix, seen), prefix, seen);
  }
}
