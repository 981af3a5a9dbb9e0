/** Circular lists of process ids: the shape that the `next` links must have. */
module Rings {
  import opened SchedulerModel

  /** Following `links` from the last member of `ring` visits its members in order, each once;
      every member belongs to queue p. */
  ghost predicate OneRing(ring: seq<nat>, p: nat, links: seq<nat>, home: seq<nat>) {
    && |home| == |links|
    && (forall k :: 0 <= k < |ring| ==> ring[k] < |links| && home[ring[k]] == p)
    && (forall k {:trigger links[ring[k]]} :: 0 <= k < |ring| ==> links[ring[k]] == ring[if k + 1 < |ring| then k + 1 else 0])
    && (forall j, k :: 0 <= j < k < |ring| ==> ring[j] != ring[k])
  }

  ghost predicate Shape(rings: seq<seq<nat>>, links: seq<nat>, home: seq<nat>) {
    forall p :: 0 <= p < |rings| ==> OneRing(rings[p], p, links, home)
  }

  /** The process reached by following `links` n times from `id`. */
  ghost function Hop(links: seq<nat>, id: nat, n: nat): (r: nat)
    requires id < |links| && forall i :: 0 <= i < |links| ==> links[i] < |links|
    ensures r < |links|
    decreases n
  {
    if n == 0 then id else links[Hop(links, id, n - 1)]
  }

  /** From `last`, hop k + 1 arrives at the ring's k-th member; one round returns to `last`. */
  lemma {:induction false} HopVisits(ring: seq<nat>, p: nat, links: seq<nat>, home: seq<nat>, k: nat)
    requires OneRing(ring, p, links, home) && k < |ring|
    requires forall i :: 0 <= i < |links| ==> links[i] < |links|
    ensures Hop(links, ring[|ring| - 1], k + 1) == ring[k]
    decreases k
  {
    if k == 0 {
      assert links[ring[|ring| - 1]] == ring[0];
      assert Hop(links, ring[|ring| - 1], 0) == ring[|ring| - 1];
    } else {
      HopVisits(ring, p, links, home, k - 1);
    }
  }

  lemma RotateKeepsRing(ring: seq<nat>, p: nat, links: seq<nat>, home: seq<nat>, k: nat)
    requires OneRing(ring, p, links, home) && k < |ring|
    ensures OneRing(Rotate(ring, k), p, links, home)
    ensures Rotate(ring, k)[|ring| - 1] == ring[k]
  {
    var r := Rotate(ring, k);
    forall j | 0 <= j < |r|
      ensures r[j] == ring[if k + 1 + j < |ring| then k + 1 + j else k + 1 + j - |ring|]
    {
    }
  }

  /** Linking process |links| in after `last` makes it the new `last` of ring p. */
  lemma AppendKeepsRing(ring: seq<nat>, p: nat, links: seq<nat>, home: seq<nat>, links': seq<nat>)
    requires OneRing(ring, p, links, home)
    requires links' == if ring == [] then links + [|links|]
                       else links[ring[|ring| - 1] := |links|] + [links[ring[|ring| - 1]]]
    ensures OneRing(ring + [|links|], p, links', home + [p])
  {
    var r := ring + [|links|];
    forall k | 0 <= k < |r|
      ensures links'[r[k]] == r[if k + 1 < |r| then k + 1 else 0]
    {
      if k < |ring| - 1 {
        assert ring[k] != ring[|ring| - 1];
      }
    }
  }

  lemma AppendKeepsOtherRing(ring: seq<nat>, q: nat, links: seq<nat>, home: seq<nat>, links': seq<nat>, p: nat, last: nat)
    requires OneRing(ring, q, links, home) && q != p
    requires links' == links + [|links|] ||
             (last < |links| && home[last] == p && links' == links[last := |links|] + [links[last]])
    ensures OneRing(ring, q, links', home + [p])
  {
  }

  lemma SpawnKeepsShape(rings: seq<seq<nat>>, links: seq<nat>, home: seq<nat>, p: nat, links': seq<nat>)
    requires Shape(rings, links, home) && p < |rings|
    requires |home| == |links|
    requires links' == if rings[p] == [] then links + [|links|]
                       else links[rings[p][|rings[p]| - 1] := |links|] + [links[rings[p][|rings[p]| - 1]]]
    ensures Shape(rings[p := rings[p] + [|links|]], links', home + [p])
  {
    var rings' := rings[p := rings[p] + [|links|]];
    forall q | 0 <= q < |rings'|
      ensures OneRing(rings'[q], q, links', home + [p])
    {
      if q == p {
        AppendKeepsRing(rings[p], p, links, home, links');
      } else {
        AppendKeepsOtherRing(rings[q], q, links, home, links', p,
                             if rings[p] == [] then 0 else rings[p][|rings[p]| - 1]);
      }
    }
  }

  lemma SwitchKeepsShape(rings: seq<seq<nat>>, links: seq<nat>, home: seq<nat>, p: nat, k: nat)
    requires Shape(rings, links, home) && p < |rings| && k < |rings[p]|
    ensures Shape(rings[p := Rotate(rings[p], k)], links, home)
  {
    RotateKeepsRing(rings[p], p, links, home, k);
  }
}
