/**
 Singly linked structures threaded through a table by one-byte slot indices.
 The source route table threads two of them: `closerIndex` (towards the gateway)
 and `olderIndex` (towards the least recently touched entry). Both end in the
 reserved index 0xFF.
 */
module IndexChains {
  /** The reserved index that ends a chain. */
  const NULL_INDEX: int := 0xFF

  /** An unsigned byte used as a slot index; 0xFF is the null index. */
  type Index = i: int | 0 <= i <= 0xFF

  ghost predicate Distinct<T>(s: seq<T>) {
    forall i, j :: 0 <= i < j < |s| ==> s[i] != s[j]
  }

  /** `path` lists the slots met when following `links` from `path[0]` until the null index. */
  ghost predicate IsChain(links: seq<Index>, path: seq<Index>) {
    && path != []
    && path[0] < |links|
    && path[0] != NULL_INDEX
    && if |path| == 1 then links[path[0]] == NULL_INDEX
       else links[path[0]] == path[1] && IsChain(links, path[1..])
  }

  /** Following `links` from slot `i` reaches the null index. */
  ghost predicate Ends(links: seq<Index>, i: Index) {
    exists path :: IsChain(links, path) && path[0] == i
  }

  /** Every slot below `n` has an ending chain. */
  ghost predicate AllEnd(links: seq<Index>, n: nat) {
    forall i: Index :: i < n ==> Ends(links, i)
  }

  ghost function ChainFrom(links: seq<Index>, i: Index): (path: seq<Index>)
    requires Ends(links, i)
    ensures IsChain(links, path) && path[0] == i
  {
    var path :| IsChain(links, path) && path[0] == i;
    path
  }

  ghost function Last<T>(s: seq<T>): T
    requires s != []
  {
    s[|s| - 1]
  }

  lemma {:induction false} ChainIsUnique(links: seq<Index>, p: seq<Index>, q: seq<Index>)
    requires IsChain(links, p) && IsChain(links, q) && p[0] == q[0]
    ensures p == q
  {
    if |p| > 1 && |q| > 1 {
      ChainIsUnique(links, p[1..], q[1..]);
    }
    assert p == [p[0]] + p[1..];
    assert q == [q[0]] + q[1..];
  }

  lemma ChainFromIs(links: seq<Index>, path: seq<Index>)
    requires IsChain(links, path)
    ensures Ends(links, path[0]) && ChainFrom(links, path[0]) == path
  {
    ChainIsUnique(links, ChainFrom(links, path[0]), path);
  }

  lemma {:induction false} ChainSuffix(links: seq<Index>, path: seq<Index>, k: nat)
    requires IsChain(links, path) && k < |path|
    ensures IsChain(links, path[k..])
    ensures links[path[k]] == if k + 1 < |path| then path[k + 1] else NULL_INDEX
    decreases k
  {
    if k > 0 {
      ChainSuffix(links, path[1..], k - 1);
      assert path[1..][k - 1..] == path[k..];
    }
  }

  lemma ChainCons(links: seq<Index>, i: Index, path: seq<Index>)
    requires IsChain(links, path) && i < |links| && i != NULL_INDEX && links[i] == path[0]
    ensures IsChain(links, [i] + path)
  {
    assert ([i] + path)[1..] == path;
  }

  /** An ending chain never meets a slot twice. */
  lemma ChainHasNoRepeats(links: seq<Index>, path: seq<Index>)
    requires IsChain(links, path)
    ensures Distinct(path)
  {
    forall i, j | 0 <= i < j < |path| ensures path[i] != path[j] {
      ChainSuffix(links, path, i);
      ChainSuffix(links, path, j);
      if path[i] == path[j] {
        ChainIsUnique(links, path[i..], path[j..]);
      }
    }
  }

  /** Pigeonhole: pairwise distinct slots below `n` number at most `n`. */
  lemma {:induction false} DistinctBelowIsShort(path: seq<Index>, n: nat)
    requires Distinct(path) && forall x :: x in path ==> x < n
    ensures |path| <= n
    decreases n
  {
    if path != [] {
      assert path[0] in path;
      if k :| 0 <= k < |path| && path[k] == n - 1 {
        var rest := path[..k] + path[k + 1..];
        forall x | x in rest ensures x < n - 1 {
          assert x in path;
          var j :| 0 <= j < |rest| && rest[j] == x;
          assert x == path[if j < k then j else j + 1];
        }
        DistinctBelowIsShort(rest, n - 1);
      } else {
        DistinctBelowIsShort(path, n - 1);
      }
    }
  }

  /** So `n` of them are all of the slots below `n`. */
  lemma DistinctBelowIsAll(path: seq<Index>, n: nat, i: Index)
    requires Distinct(path) && |path| == n && i < n && forall x :: x in path ==> x < n
    ensures i in path
  {
    if i !in path {
      DistinctBelowIsShort(path + [i], n);
    }
  }

  /** A chain depends only on the links of its own slots. */
  lemma {:induction false} ChainFrame(links: seq<Index>, links': seq<Index>, path: seq<Index>)
    requires IsChain(links, path) && |links'| == |links|
    requires forall x :: x in path ==> x < |links| && links'[x] == links[x]
    ensures IsChain(links', path)
  {
    assert path[0] in path;
    if |path| > 1 {
      forall x | x in path[1..] ensures x in path {}
      ChainFrame(links, links', path[1..]);
    }
  }

  /** If a set of slots is closed under `links`, a chain starting in it stays in it. */
  lemma {:induction false} ChainStaysBelow(links: seq<Index>, path: seq<Index>, n: nat)
    requires IsChain(links, path) && n <= |links| && path[0] < n
    requires forall i: Index :: i < n ==> links[i] == NULL_INDEX || links[i] < n
    ensures forall x :: x in path ==> x < n
    ensures |path| <= n
  {
    if |path| > 1 {
      ChainStaysBelow(links, path[1..], n);
      assert path == [path[0]] + path[1..];
    }
    ChainHasNoRepeats(links, path);
    DistinctBelowIsShort(path, n);
  }

  lemma {:induction false} ChainInTable(links: seq<Index>, path: seq<Index>)
    requires IsChain(links, path)
    ensures forall k :: 0 <= k < |path| ==> path[k] < |links|
  {
    if |path| > 1 {
      ChainInTable(links, path[1..]);
    }
  }

  /** A slot linked to itself has no ending chain. */
  lemma SelfLinkNeverEnds(links: seq<Index>, i: Index)
    requires i < |links| && i != NULL_INDEX && links[i] == i
    ensures !Ends(links, i)
  {
    if Ends(links, i) {
      var p := ChainFrom(links, i);
      ChainIsUnique(links, p, p[1..]);
    }
  }

  // ----- rerouting: what cutting one slot and relinking another does to a chain

  /**
   The walk along `path` after slot `cut` became an end and slot `from` was linked to `cut`:
   whichever of the two is met first decides how the walk goes on.
   */
  function Reroute(path: seq<Index>, cut: Index, from: Index): seq<Index> {
    if path == [] then []
    else if path[0] == cut then [cut]
    else if path[0] == from then [from, cut]
    else [path[0]] + Reroute(path[1..], cut, from)
  }

  lemma {:induction false} RerouteIsChain(
    links: seq<Index>, links': seq<Index>, path: seq<Index>, cut: Index, from: Index)
    requires IsChain(links, path) && |links'| == |links| && cut < |links| && cut != NULL_INDEX
    requires from == NULL_INDEX || from < |links|
    requires from != cut
    requires links'[cut] == NULL_INDEX && (from != NULL_INDEX ==> links'[from] == cut)
    requires forall x: Index :: x < |links| && x != cut && x != from ==> links'[x] == links[x]
    ensures IsChain(links', Reroute(path, cut, from))
    ensures Reroute(path, cut, from)[0] == path[0]
  {
    assert IsChain(links', [cut]);
    if path[0] != cut && path[0] != from && |path| > 1 {
      RerouteIsChain(links, links', path[1..], cut, from);
      var rest := Reroute(path[1..], cut, from);
      assert ([path[0]] + rest)[1..] == rest;
    } else if path[0] == from {
      assert [from, cut][1..] == [cut];
    }
  }

  lemma {:induction false} RerouteElsewhere(path: seq<Index>, cut: Index, from: Index)
    requires cut !in path && from !in path
    ensures Reroute(path, cut, from) == path
  {
    if path != [] {
      RerouteElsewhere(path[1..], cut, from);
      assert path == [path[0]] + path[1..];
    }
  }

  lemma {:induction false} RerouteMembers(path: seq<Index>, cut: Index)
    requires path != [] && NULL_INDEX !in path
    ensures cut in Reroute(path, cut, NULL_INDEX) <==> cut in path
  {
    assert path == [path[0]] + path[1..];
    if path[0] != cut && |path| > 1 {
      RerouteMembers(path[1..], cut);
    }
  }

  // ----- relinking one slot

  /** A chain that passes `slot` before it ends still passes it after only `slot` was relinked. */
  lemma {:induction false} StillMeets(
    links: seq<Index>, links': seq<Index>, path: seq<Index>, path': seq<Index>, slot: Index)
    requires IsChain(links, path) && IsChain(links', path') && path[0] == path'[0] && slot in path
    requires |links'| == |links|
    requires forall x: Index :: x < |links| && x != slot ==> links'[x] == links[x]
    ensures slot in path'
  {
    if path[0] != slot {
      assert path == [path[0]] + path[1..];
      StillMeets(links, links', path[1..], path'[1..], slot);
      assert forall x :: x in path'[1..] ==> x in path';
    }
  }

  /** A slot relinked to a chain that passes it closes a ring, and no walk that meets it ends. */
  lemma RelinkedRing(
    links: seq<Index>, links': seq<Index>, path: seq<Index>, tail: seq<Index>, slot: Index)
    requires IsChain(links, path) && IsChain(links, tail) && slot in path && slot in tail
    requires |links'| == |links| && slot < |links| && links'[slot] == tail[0]
    requires forall x: Index :: x < |links| && x != slot ==> links'[x] == links[x]
    ensures !Ends(links', path[0])
  {
    if Ends(links', path[0]) {
      var path' := ChainFrom(links', path[0]);
      StillMeets(links, links', path, path', slot);
      var k :| 0 <= k < |path'| && path'[k] == slot;
      ChainSuffix(links', path', k);
      var ring := path'[k..];
      ChainHasNoRepeats(links', ring);
      StillMeets(links, links', tail, ring[1..], slot);
    }
  }

  /** Where a chain meets a slot that was relinked to an ending chain that avoids it, it goes on along that one. */
  lemma {:induction false} RelinkDiverts(
    links: seq<Index>, links': seq<Index>, path: seq<Index>, k: nat, tail: seq<Index>)
    requires IsChain(links, path) && k < |path| && |links'| == |links| && path[k] < |links|
    requires IsChain(links', tail) && links'[path[k]] == tail[0]
    requires forall i :: 0 <= i < k ==> path[i] != path[k]
    requires forall x: Index :: x < |links| && x != path[k] ==> links'[x] == links[x]
    ensures IsChain(links', path[..k + 1] + tail)
    decreases k
  {
    if k == 0 {
      ChainCons(links', path[0], tail);
      assert path[..1] == [path[0]];
    } else {
      var rest := path[1..];
      RelinkDiverts(links, links', rest, k - 1, tail);
      assert rest[..k] + tail != [] && (rest[..k] + tail)[0] == rest[0];
      ChainCons(links', path[0], rest[..k] + tail);
      assert path[..k + 1] + tail == [path[0]] + (rest[..k] + tail);
    }
  }

  /** Relinking the end slot of chains to an ending chain that avoids it extends them. */
  lemma {:induction false} RelinkExtends(
    links: seq<Index>, links': seq<Index>, path: seq<Index>, tail: seq<Index>, slot: Index)
    requires IsChain(links, path) && IsChain(links, tail) && slot !in tail && |links'| == |links|
    requires slot < |links| && slot != NULL_INDEX && links'[slot] == tail[0]
    requires forall x: Index :: x < |links| && x != slot ==> links'[x] == links[x]
    ensures Ends(links', path[0])
  {
    ChainInTable(links, tail);
    assert forall x :: x in tail ==> x < |links| && links'[x] == links[x];
    ChainFrame(links, links', tail);
    if path[0] == slot {
      ChainCons(links', slot, tail);
      assert ([slot] + tail)[0] == slot;
    } else if |path| > 1 {
      RelinkExtends(links, links', path[1..], tail, slot);
      var rest := ChainFrom(links', path[1]);
      ChainCons(links', path[0], rest);
      assert ([path[0]] + rest)[0] == path[0];
    } else {
      assert IsChain(links', path);
    }
  }
}
