/**
 * The relay-tree enumeration of the success-probability computation: from a
 * root node, a worklist builds every simple path that visits all other nodes,
 * and a per-node list of packet-delivery-ratio (PDR) entries is filled from
 * the edges of those paths.
 *
 * Nodes are strings, so `str(node)` is the node itself. The rounding of each
 * PDR entry to four decimals is not modelled: the bodies compute each entry
 * as the exact product of the link PDRs along the branch prefix. The
 * contracts speak of which nodes receive entries and how many, not of the
 * entry values.
 */
module RelayTree {
  import opened SeqUtil

  type Node = string

  /** A branch of the tree: the root followed by the nodes it relays through. */
  type Branch = seq<Node>

  /**
   * The exceptions of the enumeration: iterating a missing new-node list
   * (TypeError), indexing an empty node list or an empty tree (IndexError),
   * and looking up a link that is not in the link table (KeyError).
   */
  datatype CtError = TypeError | IndexError | KeyError

  /** _addRootBranches: one two-node branch [root, n] per n, in order. */
  method AddRootBranches(root: Node, nodes: seq<Node>) returns (r: seq<Branch>)
    ensures |r| == |nodes|
    ensures forall i :: 0 <= i < |nodes| ==> r[i] == [root, nodes[i]]
  {
    r := [];
    for i := 0 to |nodes|
      invariant |r| == i
      invariant forall k :: 0 <= k < i ==> r[k] == [root, nodes[k]]
    {
      r := r + [[root, nodes[i]]];
    }
  }

  /**
   * A branch the worklist can hold: the root, a first hop taken from
   * `first`, and then nodes of `all`, each one not already on the branch.
   */
  predicate Chain(b: Branch, root: Node, first: seq<Node>, all: seq<Node>)
  {
    |b| >= 2 && b[0] == root && b[1] in first &&
    forall j :: 2 <= j < |b| ==> b[j] in all && b[j] !in b[..j]
  }

  /** A branch that is returned: a chain of length len(all) + 1 that was grown at least once. */
  predicate Full(b: Branch, root: Node, first: seq<Node>, all: seq<Node>)
  {
    Chain(b, root, first, all) && |b| >= 3 && |b| == |all| + 1
  }

  /** `c` is `b` grown by one node of `all` that is not on `b`. */
  predicate Extends(c: Branch, b: Branch, all: seq<Node>)
  {
    |c| == |b| + 1 && c == b + [c[|b|]] && c[|b|] in all && c[|b|] !in b
  }

  lemma ChainExtend(b: Branch, c: Branch, root: Node, first: seq<Node>, all: seq<Node>)
    requires Chain(b, root, first, all) && Extends(c, b, all)
    ensures Chain(c, root, first, all)
  {
    forall j | 2 <= j < |c|
      ensures c[j] in all && c[j] !in c[..j]
    {
      if j < |b| {
        assert c[j] == b[j] && c[..j] == b[..j];
      } else {
        assert c[..j] == b;
      }
    }
  }

  /** A chain whose first hop is not the root repeats no node. */
  lemma ChainNoDup(b: Branch, root: Node, first: seq<Node>, all: seq<Node>)
    requires Chain(b, root, first, all) && b[1] != root
    ensures NoDup(b)
  {
    forall i, j | 0 <= i < j < |b|
      ensures b[i] != b[j]
    {
      if j >= 2 {
        assert b[i] in b[..j];
      }
    }
  }

  /** A chain is at most two nodes longer than the number of distinct nodes of `all`. */
  lemma ChainLength(b: Branch, root: Node, first: seq<Node>, all: seq<Node>)
    requires Chain(b, root, first, all)
    ensures |b| <= |all| + 2
  {
    var tail := b[2..];
    forall i, j | 0 <= i < j < |tail|
      ensures tail[i] != tail[j]
    {
      assert tail[i] == b[i + 2] && tail[j] == b[j + 2];
      assert b[i + 2] in b[..j + 2];
    }
    var d := Dedup(all);
    NoDupWithin(tail, Elems(d));
    NoDupCard(d);
  }

  /** b ** e on naturals. */
  function Pow(b: nat, e: nat): (r: nat)
    ensures b >= 1 ==> r >= 1
  {
    if e == 0 then 1 else b * Pow(b, e - 1)
  }

  /** How many more nodes a branch could still be grown by. */
  function Depth(b: Branch, n: nat): nat
  {
    if |b| <= n + 2 then n + 2 - |b| else 0
  }

  /**
   * An upper bound on the number of branches the worklist entries `bs` can
   * still give rise to, themselves included: an entry of depth d has at most
   * n children, each of depth d - 1.
   */
  function Weight(bs: seq<Branch>, n: nat): nat
  {
    if bs == [] then 0 else Pow(n + 1, Depth(bs[0], n)) + Weight(bs[1..], n)
  }

  lemma {:induction false} WeightAppend(a: seq<Branch>, b: seq<Branch>, n: nat)
    ensures Weight(a + b, n) == Weight(a, n) + Weight(b, n)
  {
    if a != [] {
      assert (a + b)[0] == a[0] && (a + b)[1..] == a[1..] + b;
      WeightAppend(a[1..], b, n);
      calc {
        Weight(a + b, n);
        Pow(n + 1, Depth(a[0], n)) + Weight(a[1..] + b, n);
        Pow(n + 1, Depth(a[0], n)) + Weight(a[1..], n) + Weight(b, n);
      }
    } else {
      assert a + b == b;
    }
  }

  lemma {:induction false} WeightUniform(bs: seq<Branch>, n: nat, d: nat)
    requires forall k :: 0 <= k < |bs| ==> Depth(bs[k], n) == d
    ensures Weight(bs, n) == |bs| * Pow(n + 1, d)
  {
    if bs != [] {
      WeightUniform(bs[1..], n, d);
      var p := Pow(n + 1, d);
      assert Weight(bs, n) == p + (|bs| - 1) * p;
      MulSucc(|bs| - 1, p);
    }
  }

  /**
   * Growing the entry at `i` into at most n children of smaller depth and
   * moving past it makes the pending weight smaller.
   */
  lemma WeightDecreases(work: seq<Branch>, i: nat, kids: seq<Branch>, n: nat)
    requires i < |work| && |kids| <= n
    requires kids != [] ==> 1 <= Depth(work[i], n)
    requires forall k :: 0 <= k < |kids| ==> Depth(kids[k], n) + 1 == Depth(work[i], n)
    ensures Weight((work + kids)[i + 1..], n) < Weight(work[i..], n)
  {
    var rest := work[i + 1..];
    assert (work + kids)[i + 1..] == rest + kids;
    WeightAppend(rest, kids, n);
    assert work[i..][0] == work[i] && work[i..][1..] == rest;
    var d := Depth(work[i], n);
    assert Weight(work[i..], n) == Pow(n + 1, d) + Weight(rest, n);
    if kids != [] {
      WeightUniform(kids, n, d - 1);
      FewerKids(|kids|, n, d);
    }
  }

  /** At most n children of weight (n + 1) ^ (d - 1) weigh less than their parent's (n + 1) ^ d. */
  lemma FewerKids(c: nat, n: nat, d: nat)
    requires 1 <= d && c <= n
    ensures c * Pow(n + 1, d - 1) < Pow(n + 1, d)
  {
    var p := Pow(n + 1, d - 1);
    MulLe(c, n, p);
    assert Pow(n + 1, d) == (n + 1) * p;
    assert (n + 1) * p == n * p + p;
  }

  lemma MulSucc(a: nat, p: nat)
    ensures p + a * p == (a + 1) * p
  {
  }

  lemma {:induction false} MulLe(a: nat, b: nat, p: nat)
    requires a <= b
    ensures a * p <= b * p
  {
    if a < b {
      MulLe(a, b - 1, p);
      assert b * p == (b - 1) * p + p;
    }
  }

  /** The branches of `bs` with exactly n nodes, in order. */
  function Long(bs: seq<Branch>, n: nat): (r: seq<Branch>)
    ensures forall c :: c in r <==> c in bs && |c| == n
  {
    if bs == [] then []
    else
      var init := bs[..|bs| - 1];
      var c := bs[|bs| - 1];
      assert bs == init + [c];
      if |c| == n then Long(init, n) + [c] else Long(init, n)
  }

  /** Selecting the branches of one length keeps them distinct. */
  lemma {:induction false} LongNoDup(bs: seq<Branch>, n: nat)
    requires NoDup(bs)
    ensures NoDup(Long(bs, n))
  {
    if bs != [] {
      var init := bs[..|bs| - 1];
      var c := bs[|bs| - 1];
      assert bs == init + [c];
      assert NoDup(init) && c !in init;
      LongNoDup(init, n);
      if |c| == n {
        NoDupAppend(Long(init, n), [c]);
      }
    }
  }

  /** [b + [x] for x in nodes if x not in b]: the children of b, in the order of nodes. */
  function Kids(b: Branch, nodes: seq<Node>): seq<Branch>
  {
    if nodes == [] then []
    else
      var init := nodes[..|nodes| - 1];
      var x := nodes[|nodes| - 1];
      if x in b then Kids(b, init) else Kids(b, init) + [b + [x]]
  }

  /** Each child extends b by one node of nodes, and every such node gives a child. */
  lemma {:induction false} KidsExtend(b: Branch, nodes: seq<Node>)
    ensures |Kids(b, nodes)| <= |nodes|
    ensures forall k :: 0 <= k < |Kids(b, nodes)| ==>
      |Kids(b, nodes)[k]| == |b| + 1 && Kids(b, nodes)[k] == b + [Kids(b, nodes)[k][|b|]] &&
      Kids(b, nodes)[k][|b|] in nodes && Kids(b, nodes)[k][|b|] !in b
    ensures forall x :: x in nodes && x !in b ==> b + [x] in Kids(b, nodes)
  {
    if nodes != [] {
      var init := nodes[..|nodes| - 1];
      var x := nodes[|nodes| - 1];
      assert nodes == init + [x];
      KidsExtend(b, init);
    }
  }

  /** Distinct nodes give distinct children. */
  lemma {:induction false} KidsNoDup(b: Branch, nodes: seq<Node>)
    requires NoDup(nodes)
    ensures NoDup(Kids(b, nodes))
  {
    if nodes != [] {
      var init := nodes[..|nodes| - 1];
      var x := nodes[|nodes| - 1];
      assert nodes == init + [x];
      assert NoDup(init) && x !in init;
      KidsNoDup(b, init);
      KidsExtend(b, init);
      if x !in b {
        var ks := Kids(b, init);
        forall k | 0 <= k < |ks|
          ensures ks[k] != b + [x]
        {
          assert ks[k][|b|] in init;
        }
        NoDupAppend(ks, [b + [x]]);
      }
    }
  }

  /**
   * The body of the worklist loop for entry `i`: every node of `all` that is
   * not on the entry grows it by one, the grown branch is queued, and it is
   * also collected when it has reached len(all) + 1 nodes.
   */
  method GrowEntry(work: seq<Branch>, i: nat, all: seq<Node>, updated: seq<Branch>)
    returns (work': seq<Branch>, updated': seq<Branch>)
    requires i < |work|
    ensures work' == work + Kids(work[i], all)
    ensures updated' == updated + Long(Kids(work[i], all), |all| + 1)
  {
    var b := work[i];
    work', updated' := work, updated;
    for idx := 0 to |all|
      invariant work' == work + Kids(b, all[..idx])
      invariant updated' == updated + Long(Kids(b, all[..idx]), |all| + 1)
    {
      var node := all[idx];
      KidsStep(work, updated, b, all, idx);
      if node !in b {
        var nb := b + [node];
        if |nb| == |all| + 1 {
          updated' := updated' + [nb];
        }
        work' := work' + [nb];
      }
    }
    assert all[..|all|] == all;
  }

  /** Node idx adds its child to the queue, and to the collected branches at full length, unless it is on b. */
  lemma KidsStep(work: seq<Branch>, updated: seq<Branch>, b: Branch, all: seq<Node>, idx: nat)
    requires idx < |all|
    ensures all[idx] in b ==> Kids(b, all[..idx + 1]) == Kids(b, all[..idx])
    ensures all[idx] !in b ==>
      work + Kids(b, all[..idx + 1]) == work + Kids(b, all[..idx]) + [b + [all[idx]]]
    ensures all[idx] !in b ==>
      updated + Long(Kids(b, all[..idx + 1]), |all| + 1) ==
      updated + Long(Kids(b, all[..idx]), |all| + 1) + (if |b| + 1 == |all| + 1 then [b + [all[idx]]] else [])
  {
    assert all[..idx + 1][..idx] == all[..idx];
    if all[idx] !in b {
      var nb := b + [all[idx]];
      var grown := Kids(b, all[..idx]);
      assert Kids(b, all[..idx + 1]) == grown + [nb];
      AppendAssoc(work, grown, [nb]);
      assert Long(grown + [nb], |all| + 1) == Long(grown, |all| + 1) + (if |nb| == |all| + 1 then [nb] else []) by {
        assert (grown + [nb])[..|grown|] == grown;
      }
      AppendAssoc(updated, Long(grown, |all| + 1), [nb]);
    }
  }

  /** What the grown entry adds: its children, those of full length collected. */
  lemma EntryGrown(work: seq<Branch>, i: nat, all: seq<Node>, updated: seq<Branch>,
                   work': seq<Branch>, updated': seq<Branch>)
    requires i < |work|
    requires work' == work + Kids(work[i], all)
    requires updated' == updated + Long(Kids(work[i], all), |all| + 1)
    ensures |work| <= |work'| <= |work| + |all|
    ensures work'[..|work|] == work
    ensures forall k :: |work| <= k < |work'| ==> Extends(work'[k], work[i], all)
    ensures forall x :: x in all && x !in work[i] ==> work[i] + [x] in work'
    ensures forall c :: c in updated' <==> c in updated || (c in work'[|work|..] && |c| == |all| + 1)
    ensures NoDup(all) ==> NoDup(work'[|work|..])
  {
    var kids := Kids(work[i], all);
    KidsExtend(work[i], all);
    assert work'[|work|..] == kids;
    forall k | |work| <= k < |work'|
      ensures Extends(work'[k], work[i], all)
    {
      assert work'[k] == kids[k - |work|];
    }
    if NoDup(all) {
      KidsNoDup(work[i], all);
    }
  }

  /** The worklist invariant of _extendBranches once the first `i` entries are grown. */
  ghost predicate Grown(work: seq<Branch>, i: nat, updated: seq<Branch>, root: Node, first: seq<Node>, all: seq<Node>)
  {
    i <= |work| &&
    (forall k :: 0 <= k < |work| ==> Chain(work[k], root, first, all)) &&
    (forall x :: x in first ==> [root, x] in work) &&
    (forall k, x :: 0 <= k < i && x in all && x !in work[k] ==> work[k] + [x] in work) &&
    (forall c :: c in updated <==> c in work && |c| >= 3 && |c| == |all| + 1)
  }

  lemma GrownAfter(work: seq<Branch>, i: nat, updated: seq<Branch>, work': seq<Branch>, updated': seq<Branch>,
                   root: Node, first: seq<Node>, all: seq<Node>)
    requires Grown(work, i, updated, root, first, all) && i < |work|
    requires |work| <= |work'| && work'[..|work|] == work
    requires forall k :: |work| <= k < |work'| ==> Extends(work'[k], work[i], all)
    requires forall x :: x in all && x !in work[i] ==> work[i] + [x] in work'
    requires forall c :: c in updated' <==> c in updated || (c in work'[|work|..] && |c| == |all| + 1)
    ensures Grown(work', i + 1, updated', root, first, all)
  {
    var kids := work'[|work|..];
    assert work' == work + kids;
    forall k | 0 <= k < |work'|
      ensures Chain(work'[k], root, first, all)
    {
      if k >= |work| {
        ChainExtend(work[i], work'[k], root, first, all);
      } else {
        assert work'[k] == work[k];
      }
    }
    forall x | x in first
      ensures [root, x] in work'
    {
      assert [root, x] in work;
    }
    forall k, x | 0 <= k < i + 1 && x in all && x !in work'[k]
      ensures work'[k] + [x] in work'
    {
      assert work'[k] == work[k];
      if k < i {
        assert work[k] + [x] in work;
        assert work[k] + [x] in work + kids;
      } else {
        assert k == i;
      }
    }
    forall c
      ensures c in updated' <==> c in work' && |c| >= 3 && |c| == |all| + 1
    {
      if c in kids {
        var k :| 0 <= k < |kids| && kids[k] == c;
        assert Extends(work'[|work| + k], work[i], all);
      }
    }
  }

  /**
   * No branch is queued or collected twice: each entry other than a root
   * branch extends one of the entries already grown.
   */
  ghost predicate Distinct(work: seq<Branch>, i: nat, updated: seq<Branch>)
  {
    i <= |work| && NoDup(work) && NoDup(updated) && (forall c :: c in updated ==> c in work) &&
    forall k :: 0 <= k < |work| && |work[k]| != 2 ==> |work[k]| > 0 && work[k][..|work[k]| - 1] in work[..i]
  }

  /** Growing entry i keeps every branch distinct. */
  lemma DistinctStep(work: seq<Branch>, i: nat, updated: seq<Branch>, work': seq<Branch>, updated': seq<Branch>,
                     all: seq<Node>)
    requires i < |work| && |work[i]| >= 2 && Distinct(work, i, updated)
    requires |work| <= |work'| && work'[..|work|] == work
    requires forall k :: |work| <= k < |work'| ==> Extends(work'[k], work[i], all)
    requires NoDup(work'[|work|..])
    requires updated' == updated + Long(work'[|work|..], |all| + 1)
    ensures Distinct(work', i + 1, updated')
  {
    var kids := work'[|work|..];
    SplitAt(work', |work|);
    KidsFresh(work, i, updated, kids, all);
    NoDupAppend(work, kids);
    LongNoDup(kids, |all| + 1);
    NoDupAppend(updated, Long(kids, |all| + 1));
    KidsParents(work, i, updated, work', all);
  }

  /** No child of entry i is already queued: its parent would be an earlier copy of entry i. */
  lemma KidsFresh(work: seq<Branch>, i: nat, updated: seq<Branch>, kids: seq<Branch>, all: seq<Node>)
    requires i < |work| && Distinct(work, i, updated) && |work[i]| >= 2
    requires forall k :: 0 <= k < |kids| ==> Extends(kids[k], work[i], all)
    ensures forall c :: c in work ==> c !in kids
  {
    forall m, k | 0 <= m < |work| && 0 <= k < |kids|
      ensures work[m] != kids[k]
    {
      var c := kids[k];
      if |work[m]| == |c| {
        var p := work[m][..|work[m]| - 1];
        assert p in work[..i];
        var j :| 0 <= j < i && work[..i][j] == p;
        assert work[j] != work[i];
        assert c[..|c| - 1] == work[i];
      }
    }
  }

  /** After growing entry i, every entry other than a root branch extends one of the first i + 1. */
  lemma KidsParents(work: seq<Branch>, i: nat, updated: seq<Branch>, work': seq<Branch>, all: seq<Node>)
    requires i < |work| && Distinct(work, i, updated)
    requires |work| <= |work'| && work'[..|work|] == work
    requires forall k :: |work| <= k < |work'| ==> Extends(work'[k], work[i], all)
    ensures forall k :: 0 <= k < |work'| && |work'[k]| != 2 ==>
      |work'[k]| > 0 && work'[k][..|work'[k]| - 1] in work'[..i + 1]
  {
    assert work'[..i + 1] == work[..i + 1];
    forall k | 0 <= k < |work'| && |work'[k]| != 2
      ensures |work'[k]| > 0 && work'[k][..|work'[k]| - 1] in work'[..i + 1]
    {
      if k < |work| {
        assert work'[k] == work[k];
        var p := work[k][..|work[k]| - 1];
        var j :| 0 <= j < i && work[..i][j] == p;
        assert work'[..i + 1][j] == p;
      } else {
        assert Extends(work'[k], work[i], all);
        assert work'[..i + 1][i] == work[i];
      }
    }
  }

  /** One round of the worklist keeps its invariant and lowers the pending weight. */
  lemma GrowStep(work: seq<Branch>, i: nat, updated: seq<Branch>, work': seq<Branch>, updated': seq<Branch>,
                 root: Node, first: seq<Node>, all: seq<Node>)
    requires Grown(work, i, updated, root, first, all) && i < |work|
    requires |work| <= |work'| <= |work| + |all| && work'[..|work|] == work
    requires forall k :: |work| <= k < |work'| ==> Extends(work'[k], work[i], all)
    requires forall x :: x in all && x !in work[i] ==> work[i] + [x] in work'
    requires forall c :: c in updated' <==> c in updated || (c in work'[|work|..] && |c| == |all| + 1)
    ensures Grown(work', i + 1, updated', root, first, all)
    ensures Weight(work'[i + 1..], |all|) < Weight(work[i..], |all|)
  {
    var kids := work'[|work|..];
    assert work' == work + kids;
    ChainLength(work[i], root, first, all);
    forall k | 0 <= k < |kids|
      ensures Depth(kids[k], |all|) + 1 == Depth(work[i], |all|)
    {
      assert Extends(work'[|work| + k], work[i], all);
      ChainExtend(work[i], kids[k], root, first, all);
      ChainLength(kids[k], root, first, all);
    }
    assert kids != [] ==> Depth(kids[0], |all|) + 1 == Depth(work[i], |all|);
    WeightDecreases(work, i, kids, |all|);
    GrownAfter(work, i, updated, work', updated', root, first, all);
  }

  /** One round of _extendBranches keeps both invariants and lowers the pending weight. */
  lemma Round(work: seq<Branch>, i: nat, updated: seq<Branch>, work': seq<Branch>, updated': seq<Branch>,
              root: Node, first: seq<Node>, all: seq<Node>)
    requires Grown(work, i, updated, root, first, all) && i < |work|
    requires NoDup(all) && NoDup(first) ==> Distinct(work, i, updated)
    requires work' == work + Kids(work[i], all)
    requires updated' == updated + Long(Kids(work[i], all), |all| + 1)
    ensures Grown(work', i + 1, updated', root, first, all)
    ensures NoDup(all) && NoDup(first) ==> Distinct(work', i + 1, updated')
    ensures Weight(work'[i + 1..], |all|) < Weight(work[i..], |all|)
  {
    EntryGrown(work, i, all, updated, work', updated');
    if NoDup(all) && NoDup(first) {
      assert Chain(work[i], root, first, all);
      DistinctStep(work, i, updated, work', updated', all);
    }
    GrowStep(work, i, updated, work', updated', root, first, all);
  }

  /** Once every entry is grown, the collected branches are exactly the full chains. */
  lemma GrownResult(work: seq<Branch>, updated: seq<Branch>, root: Node, first: seq<Node>, all: seq<Node>)
    requires Grown(work, |work|, updated, root, first, all)
    ensures forall b :: b in updated <==> Full(b, root, first, all)
    ensures forall b :: b in updated ==> |b| == |all| + 1 && b[0] == root && (root !in first ==> NoDup(b))
  {
    forall b
      ensures b in updated <==> Full(b, root, first, all)
    {
      if Full(b, root, first, all) {
        ChainReached(b, work, updated, root, first, all);
      }
    }
    forall b | b in updated
      ensures |b| == |all| + 1 && b[0] == root && (root !in first ==> NoDup(b))
    {
      if root !in first {
        ChainNoDup(b, root, first, all);
      }
    }
  }

  /** Every chain is reached by the closed worklist, by growing its own prefixes. */
  lemma {:induction false} ChainReached(c: Branch, work: seq<Branch>, updated: seq<Branch>,
                                        root: Node, first: seq<Node>, all: seq<Node>)
    requires Grown(work, |work|, updated, root, first, all)
    requires Chain(c, root, first, all)
    ensures c in work
  {
    if |c| == 2 {
      assert c == [root, c[1]];
    } else {
      var p := c[..|c| - 1];
      assert Chain(p, root, first, all) by {
        forall j | 2 <= j < |p|
          ensures p[j] in all && p[j] !in p[..j]
        {
          assert p[j] == c[j] && p[..j] == c[..j];
        }
      }
      ChainReached(p, work, updated, root, first, all);
      var k :| 0 <= k < |work| && work[k] == p;
      assert c[|c| - 1] !in c[..|c| - 1];
      assert c == p + [c[|c| - 1]];
    }
  }

  /**
   * _extendBranches: the worklist starts as the root branches over
   * `all` when no earlier tree is given and over `newNodes` otherwise
   * (None there raises TypeError); it returns exactly the chains of length
   * len(all) + 1 that were grown at least once. A missing earlier tree is
   * given as the empty tree, which Python treats alike.
   */
  method ExtendBranches(existing: seq<Branch>, root: Node, all: seq<Node>, newNodes: Option<seq<Node>>)
    returns (r: Result<seq<Branch>, CtError>)
    ensures r.Err? <==> existing != [] && newNodes.None?
    ensures r.Err? ==> r.error == TypeError
    ensures r.Ok? ==>
      var first := if existing == [] then all else newNodes.value;
      forall b :: b in r.value <==> Full(b, root, first, all)
    ensures r.Ok? ==>
      var first := if existing == [] then all else newNodes.value;
      forall b :: b in r.value ==> |b| == |all| + 1 && b[0] == root && (root !in first ==> NoDup(b))
    ensures r.Ok? ==>
      var first := if existing == [] then all else newNodes.value;
      NoDup(all) && NoDup(first) ==> NoDup(r.value)
    ensures r.Ok? && |all| <= 1 ==> r.value == []
  {
    var first;
    if existing == [] {
      first := all;
    } else if newNodes.None? {
      return Err(TypeError);
    } else {
      first := newNodes.value;
    }
    var work := AddRootBranches(root, first);
    var updated: seq<Branch> := [];
    forall x | x in first
      ensures [root, x] in work
    {
      var k :| 0 <= k < |first| && first[k] == x;
      assert work[k] == [root, x];
    }
    RootsDistinct(root, first, work);
    var i := 0;
    while i < |work|
      invariant Grown(work, i, updated, root, first, all)
      invariant NoDup(all) && NoDup(first) ==> Distinct(work, i, updated)
      decreases Weight(work[i..], |all|)
    {
      var work', updated' := GrowEntry(work, i, all, updated);
      Round(work, i, updated, work', updated', root, first, all);
      work, updated, i := work', updated', i + 1;
    }
    GrownResult(work, updated, root, first, all);
    assert updated == [] || updated[0] in updated;
    r := Ok(updated);
  }

  /** Distinct first hops give distinct root branches, none of them grown yet. */
  lemma RootsDistinct(root: Node, first: seq<Node>, roots: seq<Branch>)
    requires |roots| == |first| && forall i :: 0 <= i < |first| ==> roots[i] == [root, first[i]]
    ensures NoDup(first) ==> Distinct(roots, 0, [])
  {
    if NoDup(first) {
      forall i, j | 0 <= i < j < |roots|
        ensures roots[i] != roots[j]
      {
        assert roots[i][1] == first[i] && roots[j][1] == first[j];
      }
    }
  }

  /**
   * The one-hop branches [root, n] are never length-checked, which leaves a
   * network of the root and one other node without a tree. This version
   * also keeps them when the network has two nodes.
   */
  method ExtendBranchesIntended(existing: seq<Branch>, root: Node, all: seq<Node>, newNodes: Option<seq<Node>>)
    returns (r: Result<seq<Branch>, CtError>)
    ensures r.Err? <==> existing != [] && newNodes.None?
    ensures r.Ok? ==>
      var first := if existing == [] then all else newNodes.value;
      forall b :: b in r.value <==> Chain(b, root, first, all) && |b| == |all| + 1
    ensures r.Ok? ==>
      var first := if existing == [] then all else newNodes.value;
      NoDup(all) && NoDup(first) ==> NoDup(r.value)
  {
    r := ExtendBranches(existing, root, all, newNodes);
    if r.Ok? && |all| == 1 {
      var first := if existing == [] then all else newNodes.value;
      var roots := AddRootBranches(root, first);
      RootsDistinct(root, first, roots);
      forall b
        ensures b in roots <==> Chain(b, root, first, all) && |b| == 2
      {
        if Chain(b, root, first, all) && |b| == 2 {
          var k :| 0 <= k < |first| && first[k] == b[1];
          assert roots[k] == b;
        }
      }
      r := Ok(roots);
    }
  }

  /**
   * The root and one more node n: [root, n] is a chain of the full length
   * len(all) + 1, yet it is not among the branches ExtendBranches returns.
   */
  lemma TwoNodeTreeLost(root: Node, n: Node)
    ensures Chain([root, n], root, [n], [n]) && |[root, n]| == |[n]| + 1
    ensures !Full([root, n], root, [n], [n])
  {
  }

  /** The nodes after the first position of a branch: the ends of its edges. */
  function Ends(b: Branch): seq<Node>
  {
    if b == [] then [] else b[1..]
  }

  /** The number of occurrences of `x` in `s`. */
  function Hits(s: seq<Node>, x: Node): nat
  {
    if s == [] then 0 else Hits(s[..|s| - 1], x) + (if s[|s| - 1] == x then 1 else 0)
  }

  lemma HitsSnoc(s: seq<Node>, y: Node)
    ensures forall x :: Hits(s + [y], x) == Hits(s, x) + (if y == x then 1 else 0)
  {
    assert (s + [y])[..|s|] == s;
  }

  /** The number of edges of the tree that end at `x`. */
  function EdgesInto(tree: seq<Branch>, x: Node): nat
  {
    if tree == [] then 0 else EdgesInto(tree[..|tree| - 1], x) + Hits(Ends(tree[|tree| - 1]), x)
  }

  /** Every edge of the branch is in the link table. */
  predicate BranchLinked(b: Branch, links: map<(Node, Node), real>)
  {
    forall j :: 0 <= j < |b| - 1 ==> (b[j], b[j + 1]) in links
  }

  /** Every edge of the tree is in the link table. */
  predicate Linked(tree: seq<Branch>, links: map<(Node, Node), real>)
  {
    forall t :: 0 <= t < |tree| ==> BranchLinked(tree[t], links)
  }

  lemma LinkedSnoc(tree: seq<Branch>, b: Branch, links: map<(Node, Node), real>)
    requires Linked(tree, links) && BranchLinked(b, links)
    ensures Linked(tree + [b], links)
  {
    forall t | 0 <= t < |tree| + 1
      ensures BranchLinked((tree + [b])[t], links)
    {
      if t < |tree| {
        assert (tree + [b])[t] == tree[t];
      }
    }
  }

  /**
   * The shape of the node-PDR map after the edges of the branches `done`
   * and then the edges ending at `partial`: root's [1] plus one entry per
   * edge ending at a node, and no other key.
   */
  ghost predicate Shaped(pdrs: map<Node, seq<real>>, root: Node, done: seq<Branch>, partial: seq<Node>)
  {
    root in pdrs &&
    (forall x :: x in pdrs <==> x == root || EdgesInto(done, x) + Hits(partial, x) > 0) &&
    (forall x :: x in pdrs ==> |pdrs[x]| == (if x == root then 1 else 0) + EdgesInto(done, x) + Hits(partial, x))
  }

  /** Appending an entry for the end `x` of one more edge keeps the shape. */
  lemma AppendEntry(m: map<Node, seq<real>>, root: Node, done: seq<Branch>, partial: seq<Node>, x: Node, v: real)
    requires Shaped(m, root, done, partial)
    ensures Shaped(m[x := (if x in m then m[x] else []) + [v]], root, done, partial + [x])
  {
    HitsSnoc(partial, x);
  }

  /** The edges of one finished branch join those of the branches before it. */
  lemma ShapedClose(m: map<Node, seq<real>>, root: Node, done: seq<Branch>, b: Branch)
    requires Shaped(m, root, done, Ends(b))
    ensures Shaped(m, root, done + [b], [])
  {
    var t := done + [b];
    assert t[..|t| - 1] == done && t[|t| - 1] == b;
    assert forall x :: EdgesInto(t, x) == EdgesInto(done, x) + Hits(Ends(b), x);
  }

  /**
   * The inner loop of _updateNodesPDR for one branch: each edge appends to
   * the list of the node it ends at the product of the link PDRs so far;
   * an edge missing from the link table raises KeyError.
   */
  method AddBranch(links: map<(Node, Node), real>, pdrs: map<Node, seq<real>>, root: Node,
                   ghost done: seq<Branch>, b: Branch)
    returns (r: Result<map<Node, seq<real>>, CtError>)
    requires Shaped(pdrs, root, done, [])
    ensures r.Err? <==> !BranchLinked(b, links)
    ensures r.Err? ==> r.error == KeyError
    ensures r.Ok? ==> Shaped(r.value, root, done + [b], [])
  {
    var m := pdrs;
    var prev: real := 1.0;
    var ends := Ends(b);
    for i := 0 to |ends|
      invariant Shaped(m, root, done, ends[..i])
      invariant forall j :: 0 <= j < i ==> (b[j], b[j + 1]) in links
    {
      assert ends[..i + 1] == ends[..i] + [ends[i]];
      assert b[i + 1] == ends[i];
      var key := (b[i], b[i + 1]);
      if key !in links {
        return Err(KeyError);
      }
      var v := links[key] * prev;
      var x := b[i + 1];
      AppendEntry(m, root, done, ends[..i], x, v);
      m := m[x := (if x in m then m[x] else []) + [v]];
      prev := v;
    }
    assert ends[..|ends|] == ends;
    ShapedClose(m, root, done, b);
    r := Ok(m);
  }

  /**
   * _updateNodesPDR: the root, the first node of the first branch, gets
   * the list [1]; every branch edge then appends one entry to the list of
   * the node it ends at. An empty tree or an empty first branch raises
   * IndexError, and an edge missing from the link table raises KeyError.
   */
  method UpdateNodesPDR(links: map<(Node, Node), real>, tree: seq<Branch>)
    returns (r: Result<map<Node, seq<real>>, CtError>)
    ensures tree == [] || tree[0] == [] ==> r == Err(IndexError)
    ensures tree != [] && tree[0] != [] ==> (r.Err? <==> !Linked(tree, links))
    ensures r.Ok? ==> Shaped(r.value, tree[0][0], tree, [])
  {
    if tree == [] || tree[0] == [] {
      return Err(IndexError);
    }
    var root := tree[0][0];
    var m := map[root := [1.0]];
    for t := 0 to |tree|
      invariant Shaped(m, root, tree[..t], [])
      invariant Linked(tree[..t], links)
    {
      var step := AddBranch(links, m, root, tree[..t], tree[t]);
      assert tree[..t + 1] == tree[..t] + [tree[t]];
      if step.Err? {
        assert !BranchLinked(tree[t], links);
        return Err(KeyError);
      }
      m := step.value;
      LinkedSnoc(tree[..t], tree[t], links);
    }
    assert tree[..|tree|] == tree;
    r := Ok(m);
  }

  /**
   * _computeSuccess up to the node-PDR map: pops the first node as root
   * (IndexError on an empty list), enumerates the tree over the remaining
   * nodes and fills the node-PDR map from it. `rest` is the caller's list
   * after the in-place pop, `tree` the enumerated tree.
   */
  method ComputeSuccess(allNodes: seq<Node>, links: map<(Node, Node), real>, lastTree: seq<Branch>,
                        newNodes: Option<seq<Node>>)
    returns (rest: seq<Node>, tree: seq<Branch>, r: Result<map<Node, seq<real>>, CtError>)
    ensures allNodes == [] ==> rest == [] && r == Err(IndexError)
    ensures allNodes != [] ==> rest == allNodes[1..]
    ensures allNodes != [] && lastTree != [] && newNodes.None? ==> r == Err(TypeError)
    ensures allNodes != [] && (lastTree == [] || newNodes.Some?) ==>
      var first := if lastTree == [] then rest else newNodes.value;
      forall b :: b in tree <==> Full(b, allNodes[0], first, rest)
    ensures |allNodes| <= 2 ==> r.Err?
    ensures r.Ok? ==> tree != [] && Shaped(r.value, allNodes[0], tree, [])
  {
    if allNodes == [] {
      return [], [], Err(IndexError);
    }
    var root := allNodes[0];
    rest := allNodes[1..];
    var extended := ExtendBranches(lastTree, root, rest, newNodes);
    if extended.Err? {
      return rest, [], Err(extended.error);
    }
    tree := extended.value;
    r := UpdateNodesPDR(links, tree);
    if tree != [] {
      assert tree[0] in tree;
      assert Full(tree[0], root, if lastTree == [] then rest else newNodes.value, rest);
    }
  }
}
