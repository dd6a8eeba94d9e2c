/** Severing the links between LEGO bricks (the extension methods DisconnectAll and
    DisconnectBricks).

    A brick owns parts, a part owns one connectivity, a connectivity owns planar fields and a
    field owns connection points. Each connection point holds `connectedTo`, a reference to at
    most one other connection point; the two directions of a link are stored separately and
    may disagree. Every object is a handle into a table (an arena), and `Null` (-1) stands for
    a null reference. The forward collections are what the disconnection walks; the back
    references (point -> field -> connectivity -> part -> brick) are what it checks. */
module BrickExtensions {

  /** The null reference. */
  const Null := -1

  /** `r` is Null or a handle into a table of `n` entries. */
  predicate RefOk(r: int, n: int) { Null <= r < n }

  predicate RefsOk(rs: seq<int>, n: int) { forall i :: 0 <= i < |rs| ==> Null <= rs[i] < n }

  /** The shape of the scene. Only `connectedTo` changes while bricks are disconnected, so
      everything else is an immutable value. */
  datatype Layout = Layout(
    brickParts: seq<seq<int>>,         // brick.parts
    partConnectivity: seq<int>,        // part.connectivity
    connectivityFields: seq<seq<int>>, // connectivity.planarFields
    fieldConnections: seq<seq<int>>,   // field.connections
    pointField: seq<int>,              // connection.field
    fieldConnectivity: seq<int>,       // field.connectivity
    connectivityPart: seq<int>,        // connectivity.part
    partBrick: seq<int>                // part.brick
  )

  /** Every reference in the layout is Null or a handle into the table it refers to. */
  predicate WellFormed(L: Layout) {
    && |L.partConnectivity| == |L.partBrick|
    && |L.connectivityFields| == |L.connectivityPart|
    && |L.fieldConnections| == |L.fieldConnectivity|
    && (forall b :: 0 <= b < |L.brickParts| ==> RefsOk(L.brickParts[b], |L.partBrick|))
    && RefsOk(L.partConnectivity, |L.connectivityPart|)
    && (forall v :: 0 <= v < |L.connectivityFields| ==> RefsOk(L.connectivityFields[v], |L.fieldConnectivity|))
    && (forall f :: 0 <= f < |L.fieldConnections| ==> RefsOk(L.fieldConnections[f], |L.pointField|))
    && RefsOk(L.pointField, |L.fieldConnectivity|)
    && RefsOk(L.fieldConnectivity, |L.connectivityPart|)
    && RefsOk(L.connectivityPart, |L.partBrick|)
    && RefsOk(L.partBrick, |L.brickParts|)
  }

  /** The `connectedTo` reference of every connection point, indexed by point. */
  predicate LinksOk(L: Layout, c: seq<int>) {
    |c| == |L.pointField| && RefsOk(c, |c|)
  }

  predicate IsBrick(L: Layout, b: int) { 0 <= b < |L.brickParts| }

  /** The brick at the end of point q's owner chain `q.field.connectivity.part.brick`, or Null
      when any link of the chain is null. */
  function OwnerBrick(L: Layout, q: int): (b: int)
    requires WellFormed(L) && 0 <= q < |L.pointField|
    ensures RefOk(b, |L.brickParts|)
    ensures b != Null ==> L.pointField[q] != Null
  {
    var field := L.pointField[q];
    if field == Null then Null
    else
      var connectivity := L.fieldConnectivity[field];
      if connectivity == Null then Null
      else
        var part := L.connectivityPart[connectivity];
        if part == Null then Null else L.partBrick[part]
  }

  /** The connection points of one planar field, in order; a null field has none. Null
      connections stay in the sequence (the walk skips them). */
  function FieldPoints(L: Layout, field: int): (ps: seq<int>)
    requires WellFormed(L) && RefOk(field, |L.fieldConnections|)
    ensures RefsOk(ps, |L.pointField|)
  {
    if field == Null then [] else L.fieldConnections[field]
  }

  /** The connection points of the first n fields of `fs`, in the order the walk visits them. */
  function FieldsPoints(L: Layout, fs: seq<int>, n: nat): (ps: seq<int>)
    requires WellFormed(L) && RefsOk(fs, |L.fieldConnections|) && n <= |fs|
    ensures RefsOk(ps, |L.pointField|)
  {
    if n == 0 then []
    else FieldsPoints(L, fs, n - 1) + FieldPoints(L, fs[n - 1])
  }

  /** The connection points of one part; a null part or a null connectivity has none. */
  function PartPoints(L: Layout, part: int): (ps: seq<int>)
    requires WellFormed(L) && RefOk(part, |L.partBrick|)
    ensures RefsOk(ps, |L.pointField|)
  {
    if part == Null || L.partConnectivity[part] == Null then []
    else
      var fields := L.connectivityFields[L.partConnectivity[part]];
      FieldsPoints(L, fields, |fields|)
  }

  /** The connection points of the first n parts of `parts`. */
  function PartsPoints(L: Layout, parts: seq<int>, n: nat): (ps: seq<int>)
    requires WellFormed(L) && RefsOk(parts, |L.partBrick|) && n <= |parts|
    ensures RefsOk(ps, |L.pointField|)
  {
    if n == 0 then [] else PartsPoints(L, parts, n - 1) + PartPoints(L, parts[n - 1])
  }

  /** Every connection point reachable from brick b through parts, connectivity and planar
      fields, in visiting order. */
  function BrickPoints(L: Layout, b: int): (ps: seq<int>)
    requires WellFormed(L) && IsBrick(L, b)
    ensures RefsOk(ps, |L.pointField|)
  {
    PartsPoints(L, L.brickParts[b], |L.brickParts[b]|)
  }

  /** `r` differs from `c` only by references set to null. */
  predicate ClearsOnly(c: seq<int>, r: seq<int>) {
    |r| == |c| && forall x :: 0 <= x < |c| ==> r[x] == c[x] || r[x] == Null
  }

  /** No point of `ps` links to a point whose owner chain resolves to brick `to`. */
  predicate NoLinkInto(L: Layout, c: seq<int>, ps: seq<int>, to: int)
    requires WellFormed(L) && LinksOk(L, c) && RefsOk(ps, |c|)
  {
    forall p :: p in ps && p != Null && c[p] != Null ==> OwnerBrick(L, c[p]) != to
  }

  /** The innermost step of one pass: if connection p links to a point owned by brick `to`,
      both p and that former target are set to null, whether or not the target links back. */
  function Sever(L: Layout, c: seq<int>, p: int, to: int): (r: seq<int>)
    requires WellFormed(L) && LinksOk(L, c) && RefOk(p, |c|)
    ensures LinksOk(L, r) && ClearsOnly(c, r)
  {
    if p == Null || c[p] == Null then c
    else if OwnerBrick(L, c[p]) == to then c[p := Null][c[p] := Null]
    else c
  }

  /** One pass: Sever applied to the points `ps` in order. */
  function SeverAll(L: Layout, c: seq<int>, ps: seq<int>, to: int): (r: seq<int>)
    requires WellFormed(L) && LinksOk(L, c) && RefsOk(ps, |c|)
    ensures LinksOk(L, r) && ClearsOnly(c, r)
  {
    if ps == [] then c
    else Sever(L, SeverAll(L, c, ps[..|ps| - 1], to), ps[|ps| - 1], to)
  }

  /** DisconnectBricks(brick1, brick2): nothing when either is null; otherwise a pass over
      brick1's points cutting links into brick2, then a pass over brick2's points cutting
      links into brick1. */
  function Disconnected(L: Layout, c: seq<int>, brick1: int, brick2: int): (r: seq<int>)
    requires WellFormed(L) && LinksOk(L, c)
    requires RefOk(brick1, |L.brickParts|) && RefOk(brick2, |L.brickParts|)
    ensures LinksOk(L, r) && ClearsOnly(c, r)
  {
    if brick1 == Null || brick2 == Null then c
    else
      var afterFirst := SeverAll(L, c, BrickPoints(L, brick1), brick2);
      SeverAll(L, afterFirst, BrickPoints(L, brick2), brick1)
  }

  /** The loop of DisconnectAll over the snapshot `bricks`: each entry that is neither null nor
      `brick` itself is disconnected from `brick`, in order. */
  function DisconnectEach(L: Layout, c: seq<int>, brick: int, bricks: seq<int>): (r: seq<int>)
    requires WellFormed(L) && LinksOk(L, c)
    requires RefOk(brick, |L.brickParts|) && RefsOk(bricks, |L.brickParts|)
    ensures LinksOk(L, r) && ClearsOnly(c, r)
  {
    if bricks == [] then c
    else
      var before := DisconnectEach(L, c, brick, bricks[..|bricks| - 1]);
      var other := bricks[|bricks| - 1];
      if other != Null && other != brick then Disconnected(L, before, brick, other) else before
  }

  /** DisconnectAll(brick), given the snapshot of connected bricks taken before any link is cut. */
  function DisconnectedAll(L: Layout, c: seq<int>, brick: int, connected: seq<int>): (r: seq<int>)
    requires WellFormed(L) && LinksOk(L, c)
    requires RefOk(brick, |L.brickParts|) && RefsOk(connected, |L.brickParts|)
    ensures LinksOk(L, r) && ClearsOnly(c, r)
  {
    if brick == Null then c else DisconnectEach(L, c, brick, connected)
  }

  /** The bricks other than b that b's connection points link to: the direct neighbours of b. */
  function LinkedBricks(L: Layout, c: seq<int>, b: int): set<int>
    requires WellFormed(L) && LinksOk(L, c) && IsBrick(L, b)
  {
    set p | p in BrickPoints(L, b) && p != Null && c[p] != Null
                && OwnerBrick(L, c[p]) != Null && OwnerBrick(L, c[p]) != b
      :: OwnerBrick(L, c[p])
  }

  /** Every connection point reachable from a brick names that brick at the end of its owner
      chain: the forward collections and the back references agree. */
  predicate OwnershipConsistent(L: Layout)
    requires WellFormed(L)
  {
    forall b, p :: 0 <= b < |L.brickParts| && p in BrickPoints(L, b) && p != Null ==> OwnerBrick(L, p) == b
  }

  // ---------------------------------------------------------------------------------------
  // One pass

  /** Clearing references never creates a link into `to`. */
  lemma NoLinkIntoKept(L: Layout, c: seq<int>, r: seq<int>, ps: seq<int>, to: int)
    requires WellFormed(L) && LinksOk(L, c) && LinksOk(L, r) && RefsOk(ps, |c|)
    requires ClearsOnly(c, r) && NoLinkInto(L, c, ps, to)
    ensures NoLinkInto(L, r, ps, to)
  {
  }

  /** A pass over `xs + ys` is a pass over `xs` followed by a pass over `ys`. */
  lemma {:induction false} SeverAllAppend(L: Layout, c: seq<int>, xs: seq<int>, ys: seq<int>, to: int)
    requires WellFormed(L) && LinksOk(L, c) && RefsOk(xs, |c|) && RefsOk(ys, |c|)
    ensures SeverAll(L, c, xs + ys, to) == SeverAll(L, SeverAll(L, c, xs, to), ys, to)
  {
    if ys == [] {
      assert xs + ys == xs;
    } else {
      var prefix, last := ys[..|ys| - 1], ys[|ys| - 1];
      assert (xs + ys)[..|xs + ys| - 1] == xs + prefix;
      SeverAllAppend(L, c, xs, prefix, to);
    }
  }

  /** A pass over the first k+1 points is a pass over the first k followed by Sever on point k. */
  lemma SeverAllStep(L: Layout, c: seq<int>, mid: seq<int>, r: seq<int>, ps: seq<int>, k: nat, to: int)
    requires WellFormed(L) && LinksOk(L, c) && RefsOk(ps, |c|) && k < |ps|
    requires mid == SeverAll(L, c, ps[..k], to)
    requires r == Sever(L, mid, ps[k], to)
    ensures r == SeverAll(L, c, ps[..k + 1], to)
  {
    assert ps[..k + 1][..k] == ps[..k];
  }

  /** A pass over the first i+1 parts is a pass over the first i followed by one over part i. */
  lemma PartsPointsStep(L: Layout, c: seq<int>, mid: seq<int>, r: seq<int>, parts: seq<int>, i: nat, to: int)
    requires WellFormed(L) && LinksOk(L, c) && RefsOk(parts, |L.partBrick|) && i < |parts|
    requires mid == SeverAll(L, c, PartsPoints(L, parts, i), to)
    requires r == SeverAll(L, mid, PartPoints(L, parts[i]), to)
    ensures r == SeverAll(L, c, PartsPoints(L, parts, i + 1), to)
  {
    SeverAllAppend(L, c, PartsPoints(L, parts, i), PartPoints(L, parts[i]), to);
  }

  /** A pass over the first j+1 fields is a pass over the first j followed by one over field j. */
  lemma FieldsPointsStep(L: Layout, c: seq<int>, mid: seq<int>, r: seq<int>, fields: seq<int>, j: nat, to: int)
    requires WellFormed(L) && LinksOk(L, c) && RefsOk(fields, |L.fieldConnections|) && j < |fields|
    requires mid == SeverAll(L, c, FieldsPoints(L, fields, j), to)
    requires r == SeverAll(L, mid, FieldPoints(L, fields[j]), to)
    ensures r == SeverAll(L, c, FieldsPoints(L, fields, j + 1), to)
  {
    SeverAllAppend(L, c, FieldsPoints(L, fields, j), FieldPoints(L, fields[j]), to);
  }

  /** After a pass over `ps`, no point of `ps` links into brick `to` any more. */
  lemma {:induction false} SeverAllLeavesNoLink(L: Layout, c: seq<int>, ps: seq<int>, to: int)
    requires WellFormed(L) && LinksOk(L, c) && RefsOk(ps, |c|)
    ensures NoLinkInto(L, SeverAll(L, c, ps, to), ps, to)
  {
    if ps != [] {
      var prefix, last := ps[..|ps| - 1], ps[|ps| - 1];
      assert ps == prefix + [last];
      var before := SeverAll(L, c, prefix, to);
      var after := SeverAll(L, c, ps, to);
      SeverAllLeavesNoLink(L, c, prefix, to);
      NoLinkIntoKept(L, before, after, prefix, to);
      forall p | p in ps && p != Null && after[p] != Null
        ensures OwnerBrick(L, after[p]) != to
      {
        if p !in prefix {
          assert p == last;
        }
      }
    }
  }

  /** A pass changes a point x only by setting it to null, and only when x is a point of `ps`
      that linked into brick `to`, or x is owned by `to` and was the target of a point of `ps`. */
  lemma {:induction false} SeverAllChanges(L: Layout, c: seq<int>, ps: seq<int>, to: int, x: int)
    requires WellFormed(L) && LinksOk(L, c) && RefsOk(ps, |c|) && 0 <= x < |c|
    ensures var r := SeverAll(L, c, ps, to);
      r[x] != c[x] ==>
        && r[x] == Null
        && ((x in ps && c[x] != Null && OwnerBrick(L, c[x]) == to)
            || (OwnerBrick(L, x) == to && exists p :: p in ps && p != Null && c[p] == x))
  {
    if ps != [] {
      var prefix, last := ps[..|ps| - 1], ps[|ps| - 1];
      assert ps == prefix + [last];
      var before := SeverAll(L, c, prefix, to);
      SeverAllChanges(L, c, prefix, to, x);
      if last != Null && before[last] != Null && OwnerBrick(L, before[last]) == to {
        assert before[last] == c[last];
        if x != last && x == before[last] {
          assert last in ps && c[last] == x;
        }
      }
    }
  }

  /** A pass over points none of which links into `to` changes nothing. */
  lemma {:induction false} SeverAllNothingToCut(L: Layout, c: seq<int>, ps: seq<int>, to: int)
    requires WellFormed(L) && LinksOk(L, c) && RefsOk(ps, |c|)
    requires NoLinkInto(L, c, ps, to)
    ensures SeverAll(L, c, ps, to) == c
  {
    if ps != [] {
      var prefix, last := ps[..|ps| - 1], ps[|ps| - 1];
      assert ps == prefix + [last];
      SeverAllNothingToCut(L, c, prefix, to);
    }
  }

  /** When the points of `ps` are not themselves owned by `to`, every link from `ps` into `to`
      is cut at both ends: the point and its former target both end null, whether or not the
      target linked back. */
  lemma {:induction false} SeverAllBothEnds(L: Layout, c: seq<int>, ps: seq<int>, to: int, p: int)
    requires WellFormed(L) && LinksOk(L, c) && RefsOk(ps, |c|)
    requires forall q :: q in ps && q != Null ==> OwnerBrick(L, q) != to
    requires p in ps && p != Null && c[p] != Null && OwnerBrick(L, c[p]) == to
    ensures SeverAll(L, c, ps, to)[p] == Null && SeverAll(L, c, ps, to)[c[p]] == Null
  {
    var prefix, last := ps[..|ps| - 1], ps[|ps| - 1];
    assert ps == prefix + [last];
    var before := SeverAll(L, c, prefix, to);
    if p in prefix {
      SeverAllBothEnds(L, c, prefix, to, p);
    } else {
      SeverAllChanges(L, c, prefix, to, p);
      assert before[p] == c[p];
    }
  }

  // ---------------------------------------------------------------------------------------
  // DisconnectBricks

  /** After DisconnectBricks(b1, b2) no point of b1 links into b2 and no point of b2 links into b1. */
  lemma DisconnectedLeavesNoLink(L: Layout, c: seq<int>, b1: int, b2: int)
    requires WellFormed(L) && LinksOk(L, c) && IsBrick(L, b1) && IsBrick(L, b2)
    ensures NoLinkInto(L, Disconnected(L, c, b1, b2), BrickPoints(L, b1), b2)
    ensures NoLinkInto(L, Disconnected(L, c, b1, b2), BrickPoints(L, b2), b1)
  {
    var afterFirst := SeverAll(L, c, BrickPoints(L, b1), b2);
    var r := Disconnected(L, c, b1, b2);
    SeverAllLeavesNoLink(L, c, BrickPoints(L, b1), b2);
    NoLinkIntoKept(L, afterFirst, r, BrickPoints(L, b1), b2);
    SeverAllLeavesNoLink(L, afterFirst, BrickPoints(L, b2), b1);
  }

  /** Only connection points owned by b1 or b2 (reached from them, or resolving to them) can
      change, and a change only ever sets a reference to null. */
  lemma DisconnectedFrame(L: Layout, c: seq<int>, b1: int, b2: int, x: int)
    requires WellFormed(L) && LinksOk(L, c) && IsBrick(L, b1) && IsBrick(L, b2) && 0 <= x < |c|
    requires x !in BrickPoints(L, b1) && x !in BrickPoints(L, b2)
    requires OwnerBrick(L, x) != b1 && OwnerBrick(L, x) != b2
    ensures Disconnected(L, c, b1, b2)[x] == c[x]
  {
    var afterFirst := SeverAll(L, c, BrickPoints(L, b1), b2);
    SeverAllChanges(L, c, BrickPoints(L, b1), b2, x);
    SeverAllChanges(L, afterFirst, BrickPoints(L, b2), b1, x);
  }

  /** DisconnectBricks is idempotent: a second call with the same pair changes nothing. */
  lemma DisconnectedIdempotent(L: Layout, c: seq<int>, b1: int, b2: int)
    requires WellFormed(L) && LinksOk(L, c)
    requires RefOk(b1, |L.brickParts|) && RefOk(b2, |L.brickParts|)
    ensures Disconnected(L, Disconnected(L, c, b1, b2), b1, b2) == Disconnected(L, c, b1, b2)
  {
    if b1 != Null && b2 != Null {
      var r := Disconnected(L, c, b1, b2);
      DisconnectedLeavesNoLink(L, c, b1, b2);
      SeverAllNothingToCut(L, r, BrickPoints(L, b1), b2);
      SeverAllNothingToCut(L, r, BrickPoints(L, b2), b1);
    }
  }

  /** With consistent ownership and two distinct bricks: every link from b1 into b2 is cut at
      both ends; every point of b2 that linked into b1 ends null; and the former target of such
      a point ends null too unless the point itself was the target of a link from b1 (then the
      first pass already nulled it, and the second pass has nothing left to follow). */
  lemma DisconnectedBothEnds(L: Layout, c: seq<int>, b1: int, b2: int)
    requires WellFormed(L) && LinksOk(L, c) && OwnershipConsistent(L)
    requires IsBrick(L, b1) && IsBrick(L, b2) && b1 != b2
    ensures var r := Disconnected(L, c, b1, b2);
      forall p :: p in BrickPoints(L, b1) && p != Null && c[p] != Null && OwnerBrick(L, c[p]) == b2
        ==> r[p] == Null && r[c[p]] == Null
    ensures var r := Disconnected(L, c, b1, b2);
      forall q :: q in BrickPoints(L, b2) && q != Null && c[q] != Null && OwnerBrick(L, c[q]) == b1
        ==> r[q] == Null
    ensures var r := Disconnected(L, c, b1, b2);
      forall q :: q in BrickPoints(L, b2) && q != Null && c[q] != Null && OwnerBrick(L, c[q]) == b1
                  && (forall p :: p in BrickPoints(L, b1) && p != Null ==> c[p] != q)
        ==> r[q] == Null && r[c[q]] == Null
  {
    var first, second := BrickPoints(L, b1), BrickPoints(L, b2);
    var afterFirst := SeverAll(L, c, first, b2);
    var r := Disconnected(L, c, b1, b2);
    forall p | p in first && p != Null && c[p] != Null && OwnerBrick(L, c[p]) == b2
      ensures r[p] == Null && r[c[p]] == Null
    {
      SeverAllBothEnds(L, c, first, b2, p);
    }
    forall q | q in second && q != Null && c[q] != Null && OwnerBrick(L, c[q]) == b1
      ensures r[q] == Null
      ensures (forall p :: p in first && p != Null ==> c[p] != q) ==> r[q] == Null && r[c[q]] == Null
    {
      SeverAllChanges(L, c, first, b2, q);
      if afterFirst[q] != Null {
        assert afterFirst[q] == c[q];
        SeverAllBothEnds(L, afterFirst, second, b1, q);
      } else if forall p :: p in first && p != Null ==> c[p] != q {
        assert false;
      }
    }
  }

  // ---------------------------------------------------------------------------------------
  // DisconnectAll

  /** After the loop over `bricks`, `brick` and every brick of the loop are cut apart in both
      directions. */
  lemma {:induction false} DisconnectEachSevers(L: Layout, c: seq<int>, brick: int, bricks: seq<int>)
    requires WellFormed(L) && LinksOk(L, c) && IsBrick(L, brick) && RefsOk(bricks, |L.brickParts|)
    ensures var r := DisconnectEach(L, c, brick, bricks);
      forall d :: d in bricks && d != Null && d != brick ==>
        NoLinkInto(L, r, BrickPoints(L, brick), d) && NoLinkInto(L, r, BrickPoints(L, d), brick)
  {
    if bricks != [] {
      var prefix, other := bricks[..|bricks| - 1], bricks[|bricks| - 1];
      assert bricks == prefix + [other];
      var before := DisconnectEach(L, c, brick, prefix);
      var r := DisconnectEach(L, c, brick, bricks);
      DisconnectEachSevers(L, c, brick, prefix);
      if other != Null && other != brick {
        DisconnectedLeavesNoLink(L, before, brick, other);
      }
      forall d | d in bricks && d != Null && d != brick
        ensures NoLinkInto(L, r, BrickPoints(L, brick), d) && NoLinkInto(L, r, BrickPoints(L, d), brick)
      {
        if d in prefix {
          NoLinkIntoKept(L, before, r, BrickPoints(L, brick), d);
          NoLinkIntoKept(L, before, r, BrickPoints(L, d), brick);
        }
      }
    }
  }

  /** If the snapshot holds every direct neighbour of the brick, as "disconnects a brick from
      all connected bricks" promises, then afterwards the brick links to no other brick, and no
      brick of the snapshot links back to it. */
  lemma DisconnectAllComplete(L: Layout, c: seq<int>, brick: int, connected: seq<int>)
    requires WellFormed(L) && LinksOk(L, c) && IsBrick(L, brick) && RefsOk(connected, |L.brickParts|)
    requires forall d :: d in LinkedBricks(L, c, brick) ==> d in connected
    ensures LinkedBricks(L, DisconnectedAll(L, c, brick, connected), brick) == {}
    ensures forall d :: d in connected && d != Null && d != brick ==>
      NoLinkInto(L, DisconnectedAll(L, c, brick, connected), BrickPoints(L, d), brick)
  {
    var r := DisconnectedAll(L, c, brick, connected);
    DisconnectEachSevers(L, c, brick, connected);
    forall p | p in BrickPoints(L, brick) && p != Null && c[p] != Null
                 && OwnerBrick(L, c[p]) != Null && OwnerBrick(L, c[p]) != brick
      ensures r[p] == Null
    {
      assert OwnerBrick(L, c[p]) in LinkedBricks(L, c, brick);
    }
    assert LinkedBricks(L, r, brick) == {};
  }

  /** Only connection points owned by the brick or by a brick of the snapshot can change. */
  lemma {:induction false} DisconnectEachFrame(L: Layout, c: seq<int>, brick: int, bricks: seq<int>, x: int)
    requires WellFormed(L) && LinksOk(L, c) && IsBrick(L, brick) && RefsOk(bricks, |L.brickParts|)
    requires 0 <= x < |c| && x !in BrickPoints(L, brick) && OwnerBrick(L, x) != brick
    requires forall d :: d in bricks && d != Null ==> x !in BrickPoints(L, d) && OwnerBrick(L, x) != d
    ensures DisconnectEach(L, c, brick, bricks)[x] == c[x]
  {
    if bricks != [] {
      var prefix, other := bricks[..|bricks| - 1], bricks[|bricks| - 1];
      assert bricks == prefix + [other];
      forall d | d in prefix ensures d in bricks {
        var i :| 0 <= i < |prefix| && prefix[i] == d;
        assert bricks[i] == d;
      }
      DisconnectEachFrame(L, c, brick, prefix, x);
      if other != Null && other != brick {
        DisconnectedFrame(L, DisconnectEach(L, c, brick, prefix), brick, other, x);
      }
    }
  }

  /** DisconnectAll never disconnects the brick from itself nor from a null entry: a snapshot
      holding only those changes nothing. */
  lemma {:induction false} DisconnectEachSkipsSelfAndNull(L: Layout, c: seq<int>, brick: int, bricks: seq<int>)
    requires WellFormed(L) && LinksOk(L, c) && RefOk(brick, |L.brickParts|) && RefsOk(bricks, |L.brickParts|)
    requires forall d :: d in bricks ==> d == Null || d == brick
    ensures DisconnectEach(L, c, brick, bricks) == c
  {
    if bricks != [] {
      var prefix, other := bricks[..|bricks| - 1], bricks[|bricks| - 1];
      assert bricks[|bricks| - 1] in bricks;
      forall d | d in prefix ensures d in bricks {
        var i :| 0 <= i < |prefix| && prefix[i] == d;
        assert bricks[i] == d;
      }
      DisconnectEachSkipsSelfAndNull(L, c, brick, prefix);
    }
  }

  /** Every step of a loop over bricks already cut apart from `brick` changes nothing. */
  lemma {:induction false} DisconnectEachNothingToCut(L: Layout, c: seq<int>, brick: int, bricks: seq<int>)
    requires WellFormed(L) && LinksOk(L, c) && IsBrick(L, brick) && RefsOk(bricks, |L.brickParts|)
    requires forall d :: d in bricks && d != Null && d != brick ==>
      NoLinkInto(L, c, BrickPoints(L, brick), d) && NoLinkInto(L, c, BrickPoints(L, d), brick)
    ensures DisconnectEach(L, c, brick, bricks) == c
  {
    if bricks != [] {
      var prefix, other := bricks[..|bricks| - 1], bricks[|bricks| - 1];
      assert bricks == prefix + [other];
      DisconnectEachNothingToCut(L, c, brick, prefix);
      if other != Null && other != brick {
        SeverAllNothingToCut(L, c, BrickPoints(L, brick), other);
        SeverAllNothingToCut(L, c, BrickPoints(L, other), brick);
      }
    }
  }

  /** DisconnectAll with the same snapshot is idempotent. */
  lemma DisconnectAllIdempotent(L: Layout, c: seq<int>, brick: int, connected: seq<int>)
    requires WellFormed(L) && LinksOk(L, c)
    requires RefOk(brick, |L.brickParts|) && RefsOk(connected, |L.brickParts|)
    ensures var r := DisconnectedAll(L, c, brick, connected);
      DisconnectedAll(L, r, brick, connected) == r
  {
    if brick != Null {
      var r := DisconnectedAll(L, c, brick, connected);
      DisconnectEachSevers(L, c, brick, connected);
      DisconnectEachNothingToCut(L, r, brick, connected);
    }
  }

  // ---------------------------------------------------------------------------------------
  // The scene, updated in place

  /** The connection points of a scene, whose `connectedTo` references change in place. */
  class ConnectivityGraph {
    const layout: Layout
    const connectedTo: array<int>

    ghost predicate Valid()
      reads this, connectedTo
    {
      WellFormed(layout) && LinksOk(layout, connectedTo[..])
    }

    constructor (layout: Layout, links: seq<int>)
      requires WellFormed(layout) && LinksOk(layout, links)
      ensures Valid() && this.layout == layout && connectedTo[..] == links && fresh(connectedTo)
    {
      this.layout := layout;
      connectedTo := new int[|links|](i requires 0 <= i < |links| => links[i]);
    }

    /** One pass of DisconnectBricks: walk the parts, planar fields and connections of brick
        `from` and cut every link into brick `to`. */
    method SeverFrom(from: int, to: int)
      requires Valid() && IsBrick(layout, from) && IsBrick(layout, to)
      modifies connectedTo
      ensures Valid()
      ensures connectedTo[..] == SeverAll(layout, old(connectedTo[..]), BrickPoints(layout, from), to)
    {
      ghost var c0 := connectedTo[..];
      var parts := layout.brickParts[from];
      var i := 0;
      while i < |parts|
        invariant 0 <= i <= |parts|
        invariant Valid()
        invariant connectedTo[..] == SeverAll(layout, c0, PartsPoints(layout, parts, i), to)
      {
        ghost var mid := connectedTo[..];
        SeverPart(parts[i], to);
        PartsPointsStep(layout, c0, mid, connectedTo[..], parts, i, to);
        i := i + 1;
      }
    }

    /** The middle loop of a pass, over the planar fields of one part: a null part or a null
        connectivity has nothing to walk. */
    method SeverPart(part: int, to: int)
      requires Valid() && RefOk(part, |layout.partBrick|) && IsBrick(layout, to)
      modifies connectedTo
      ensures Valid()
      ensures connectedTo[..] == SeverAll(layout, old(connectedTo[..]), PartPoints(layout, part), to)
    {
      if part != Null && layout.partConnectivity[part] != Null {
        SeverFields(layout.connectivityFields[layout.partConnectivity[part]], to);
      }
    }

    /** The loop over planar fields. */
    method SeverFields(fields: seq<int>, to: int)
      requires Valid() && RefsOk(fields, |layout.fieldConnections|) && IsBrick(layout, to)
      modifies connectedTo
      ensures Valid()
      ensures connectedTo[..] == SeverAll(layout, old(connectedTo[..]), FieldsPoints(layout, fields, |fields|), to)
    {
      ghost var c0 := connectedTo[..];
      var j := 0;
      while j < |fields|
        invariant 0 <= j <= |fields|
        invariant Valid()
        invariant connectedTo[..] == SeverAll(layout, c0, FieldsPoints(layout, fields, j), to)
      {
        ghost var mid := connectedTo[..];
        SeverField(fields[j], to);
        FieldsPointsStep(layout, c0, mid, connectedTo[..], fields, j, to);
        j := j + 1;
      }
    }

    /** The body of the innermost loop: if `connection` links to a point owned by brick `to`,
        null the connection and then its former target. */
    method SeverConnection(connection: int, to: int)
      requires Valid() && RefOk(connection, connectedTo.Length) && IsBrick(layout, to)
      modifies connectedTo
      ensures Valid()
      ensures connectedTo[..] == Sever(layout, old(connectedTo[..]), connection, to)
    {
      if connection == Null || connectedTo[connection] == Null {
        return;
      }
      var target := connectedTo[connection];
      if OwnerBrick(layout, target) == to {
        connectedTo[connection] := Null;
        if target != Null {
          connectedTo[target] := Null;
        }
        assert connectedTo[..] == old(connectedTo[..])[connection := Null][target := Null];
      }
    }

    /** The innermost loop of a pass: cut every link from the connections of `field` into
        brick `to`, skipping a null field, null connections and connections already null. */
    method SeverField(field: int, to: int)
      requires Valid() && RefOk(field, |layout.fieldConnections|) && IsBrick(layout, to)
      modifies connectedTo
      ensures Valid()
      ensures connectedTo[..] == SeverAll(layout, old(connectedTo[..]), FieldPoints(layout, field), to)
    {
      if field == Null {
        return;
      }
      ghost var c0 := connectedTo[..];
      var connections := layout.fieldConnections[field];
      assert RefsOk(connections, |c0|);
      var k := 0;
      while k < |connections|
        invariant 0 <= k <= |connections|
        invariant Valid()
        invariant connectedTo[..] == SeverAll(layout, c0, connections[..k], to)
      {
        ghost var mid := connectedTo[..];
        SeverConnection(connections[k], to);
        SeverAllStep(layout, c0, mid, connectedTo[..], connections, k, to);
        k := k + 1;
      }
      assert connections[..|connections|] == connections;
    }

    /** DisconnectBricks(brick1, brick2); a null argument makes it a no-op. */
    method DisconnectBricks(brick1: int, brick2: int)
      requires Valid() && RefOk(brick1, |layout.brickParts|) && RefOk(brick2, |layout.brickParts|)
      modifies connectedTo
      ensures Valid()
      ensures connectedTo[..] == Disconnected(layout, old(connectedTo[..]), brick1, brick2)
      ensures brick1 == Null || brick2 == Null ==> connectedTo[..] == old(connectedTo[..])
    {
      if brick1 == Null || brick2 == Null {
        return;
      }
      SeverFrom(brick1, brick2);
      SeverFrom(brick2, brick1);
    }

    /** DisconnectAll(brick), where `connected` is the snapshot GetConnectedBricks(true) returned
        before any link was cut; a null brick makes it a no-op. */
    method DisconnectAll(brick: int, connected: seq<int>)
      requires Valid() && RefOk(brick, |layout.brickParts|) && RefsOk(connected, |layout.brickParts|)
      modifies connectedTo
      ensures Valid()
      ensures connectedTo[..] == DisconnectedAll(layout, old(connectedTo[..]), brick, connected)
      ensures brick == Null ==> connectedTo[..] == old(connectedTo[..])
    {
      if brick == Null {
        return;
      }
      ghost var c0 := connectedTo[..];
      var i := 0;
      while i < |connected|
        invariant 0 <= i <= |connected|
        invariant Valid()
        invariant connectedTo[..] == DisconnectEach(layout, c0, brick, connected[..i])
      {
        var other := connected[i];
        assert connected[..i + 1][..i] == connected[..i];
        if other != Null && other != brick {
          DisconnectBricks(brick, other);
        }
        i := i + 1;
      }
      assert connected[..|connected|] == connected;
    }
  }
}
