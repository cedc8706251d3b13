/** Heuristic z-matrices for chains and rings of atoms: bond-length and
    bond-angle heuristics, the bond angle that closes a ring arc, and the
    two builders that place keys one by one, each row referring back to the
    rows of the (up to) three keys placed just before it. */
module Geom {
  import opened Wrappers
  import GraphBase

  type Key = GraphBase.AtomKey

  // bond distances, in angstroms
  const XY_DIST: real := 1.5
  const XH_DIST: real := 1.1

  // bond angles, in degrees
  const TET_ANG: real := 109.4712
  const TRI_ANG: real := 120.0
  const LIN_ANG: real := 180.0

  // dihedral angles, in degrees
  const CIS_DIH: real := 0.0
  const TRA_DIH: real := 180.0

  /** What the geometry code reads about a graph: each atom's symbol, each
      atom's neighbour keys, and each atom's dominant hybridization (3 for
      sp3, 2 for sp2, 1 for sp). */
  datatype GraphInfo = GraphInfo(
    symbols: map<Key, string>,
    neighbors: map<Key, set<Key>>,
    hybridizations: map<Key, int>)

  /** The view of `graph` whose symbols are the graph's atom symbols; the
      neighbour and hybridization views are computed elsewhere and passed in.
      The builders below are called with such a view, as the library reads
      the symbols of the graph it is given. */
  function InfoOf(graph: GraphBase.Graph, neighbors: map<Key, set<Key>>, hybridizations: map<Key, int>): (info: GraphInfo)
    ensures info.symbols.Keys == GraphBase.AtomKeys(graph)
    ensures forall k :: k in info.symbols ==> info.symbols[k] == GraphBase.Atoms(graph)[k].symbol
  {
    GraphInfo(GraphBase.AtomSymbols(graph), neighbors, hybridizations)
  }

  datatype GeomError =
    | MissingKey(key: Key)                // a dictionary lookup of this key raised
    | NotBonded                           // a neighbour check asserted and failed
    | UnsupportedHybridization(hyb: int)  // a centre that is none of sp3, sp2, sp
    | NonConvergence                      // the ring-arc root search did not converge
    | ZeroDivision                        // the ring-arc solve divided by num - 1 = 0

  /** The atomic number of `symbol` is 1. */
  predicate IsHydrogen(symbol: string)
  {
    symbol == "H"
  }

  // ---------------------------------------------------------------------
  // Heuristic bond distances and angles
  // ---------------------------------------------------------------------

  /** The bond length between two bonded atoms: the X-H length when either
      is a hydrogen, the heavy-atom length otherwise. With `check`, fails
      unless `key1` is a neighbour of `key2`. */
  function HeuristicBondDistance(info: GraphInfo, key1: Key, key2: Key, check: bool): (r: Result<real, GeomError>)
    ensures r.Success? <==>
      && (check ==> key2 in info.neighbors && key1 in info.neighbors[key2])
      && key1 in info.symbols && key2 in info.symbols
    ensures check && key2 !in info.neighbors ==> r == Failure(MissingKey(key2))
    ensures check && key2 in info.neighbors && key1 !in info.neighbors[key2] ==> r == Failure(NotBonded)
    ensures (check ==> key2 in info.neighbors && key1 in info.neighbors[key2]) && key1 !in info.symbols
      ==> r == Failure(MissingKey(key1))
    ensures (check ==> key2 in info.neighbors && key1 in info.neighbors[key2]) && key1 in info.symbols
      && key2 !in info.symbols
      ==> r == Failure(MissingKey(key2))
    ensures r.Success? ==>
      (r.value == XH_DIST <==> IsHydrogen(info.symbols[key1]) || IsHydrogen(info.symbols[key2]))
    ensures r.Success? ==> r.value == XH_DIST || r.value == XY_DIST
  {
    if check && key2 !in info.neighbors then Failure(MissingKey(key2))
    else if check && key1 !in info.neighbors[key2] then Failure(NotBonded)
    else if key1 !in info.symbols then Failure(MissingKey(key1))
    else if key2 !in info.symbols then Failure(MissingKey(key2))
    else if IsHydrogen(info.symbols[key1]) || IsHydrogen(info.symbols[key2]) then Success(XH_DIST)
    else Success(XY_DIST)
  }

  /** The ideal angle at a centre of hybridization `hyb`, or None when `hyb`
      is none of 3, 2, 1. */
  function IdealAngle(hyb: int): (a: Option<real>)
    ensures a.Some? <==> hyb == 1 || hyb == 2 || hyb == 3
  {
    if hyb == 3 then Some(TET_ANG)
    else if hyb == 2 then Some(TRI_ANG)
    else if hyb == 1 then Some(LIN_ANG)
    else None
  }

  /** The bond angle key1-key2-key3 from the hybridization of the centre
      `key2`: tetrahedral for sp3, trigonal for sp2, linear for sp. With
      `check`, fails unless key1 and key3 are both neighbours of key2. */
  function HeuristicBondAngle(info: GraphInfo, key1: Key, key2: Key, key3: Key, check: bool): (r: Result<real, GeomError>)
    ensures r.Success? <==>
      && (check ==> key2 in info.neighbors && key1 in info.neighbors[key2] && key3 in info.neighbors[key2])
      && key2 in info.hybridizations
      && IdealAngle(info.hybridizations[key2]).Some?
    ensures check && key2 !in info.neighbors ==> r == Failure(MissingKey(key2))
    ensures check && key2 in info.neighbors && !(key1 in info.neighbors[key2] && key3 in info.neighbors[key2]) ==>
      r == Failure(NotBonded)
    ensures (check ==> key2 in info.neighbors && key1 in info.neighbors[key2] && key3 in info.neighbors[key2])
      && key2 !in info.hybridizations
      ==> r == Failure(MissingKey(key2))
    ensures (check ==> key2 in info.neighbors && key1 in info.neighbors[key2] && key3 in info.neighbors[key2])
      && key2 in info.hybridizations && IdealAngle(info.hybridizations[key2]).None?
      ==> r == Failure(UnsupportedHybridization(info.hybridizations[key2]))
    ensures r.Success? ==> r.value == IdealAngle(info.hybridizations[key2]).value
  {
    if check && key2 !in info.neighbors then Failure(MissingKey(key2))
    else if check && !(key1 in info.neighbors[key2] && key3 in info.neighbors[key2]) then Failure(NotBonded)
    else if key2 !in info.hybridizations then Failure(MissingKey(key2))
    else
      match IdealAngle(info.hybridizations[key2])
      case Some(angle) => Success(angle)
      case None => Failure(UnsupportedHybridization(info.hybridizations[key2]))
  }

  /** sp3, sp2 and sp centres get 109.4712, 120 and 180 degrees: the fewer
      the hybrid orbitals, the wider the angle, and never wider than linear. */
  lemma IdealAngleOrder(h1: int, h2: int)
    requires IdealAngle(h1).Some? && IdealAngle(h2).Some?
    ensures IdealAngle(3) == Some(TET_ANG) && IdealAngle(2) == Some(TRI_ANG) && IdealAngle(1) == Some(LIN_ANG)
    ensures h1 < h2 ==> IdealAngle(h1).value > IdealAngle(h2).value
    ensures IdealAngle(h1).value <= LIN_ANG
  {
  }

  /** Without the neighbour check the distance does not depend on which end
      of the bond comes first. */
  lemma HeuristicBondDistanceSymmetric(info: GraphInfo, key1: Key, key2: Key)
    ensures HeuristicBondDistance(info, key1, key2, false).Success?
        == HeuristicBondDistance(info, key2, key1, false).Success?
    ensures HeuristicBondDistance(info, key1, key2, false).Success? ==>
      HeuristicBondDistance(info, key1, key2, false).value == HeuristicBondDistance(info, key2, key1, false).value
  {
  }

  /** The angle depends on the centre only, not on the two outer atoms. */
  lemma HeuristicBondAngleCentreOnly(info: GraphInfo, key1: Key, key2: Key, key3: Key, key1': Key, key3': Key)
    ensures HeuristicBondAngle(info, key1, key2, key3, false) == HeuristicBondAngle(info, key1', key2, key3', false)
  {
  }

  // ---------------------------------------------------------------------
  // The bond angle that closes a ring arc
  // ---------------------------------------------------------------------

  /** The numeric solve of the arc equation for the given atom count, end
      distance and bond distance: the angle the arc subtends at the centre
      of its circle, in degrees, or None when the bracketed root search does
      not converge. */
  type ArcSolver = (nat, real, real) -> Option<real>

  /** The bond angle for `num` atoms on a circular arc whose ends are
      `endDist` apart and whose neighbours are `bondDist` apart. When the
      ends are farther apart than the bonds can reach when straight, the arc
      is left straight (180 degrees) and nothing is solved; otherwise the
      angle is 180 - theta / (num - 1) for the subtended angle theta. */
  function RingArcBondAngle(num: nat, endDist: real, bondDist: real, solve: ArcSolver): (r: Result<real, GeomError>)
    ensures endDist > (num - 1) as real * bondDist ==> r == Success(LIN_ANG)
    ensures endDist <= (num - 1) as real * bondDist ==>
      (r.Success? <==> num != 1 && solve(num, endDist, bondDist).Some?)
    ensures endDist <= (num - 1) as real * bondDist && num == 1 ==> r == Failure(ZeroDivision)
    ensures endDist <= (num - 1) as real * bondDist && num != 1 && solve(num, endDist, bondDist).None? ==>
      r == Failure(NonConvergence)
  {
    if endDist > (num - 1) as real * bondDist then
      Success(LIN_ANG)
    else if num == 1 then
      Failure(ZeroDivision)
    else
      match solve(num, endDist, bondDist)
      case None => Failure(NonConvergence)
      case Some(theta) => Success(LIN_ANG - theta / (num - 1) as real)
  }

  /** A solved bond angle gives back the subtended angle: its deficit from
      linear, times the num - 1 bonds, is theta. */
  lemma SolvedArcAngleRecoversTheta(num: nat, endDist: real, bondDist: real, solve: ArcSolver)
    requires endDist <= (num - 1) as real * bondDist
    requires RingArcBondAngle(num, endDist, bondDist, solve).Success?
    ensures num != 1 && solve(num, endDist, bondDist).Some?
    ensures (LIN_ANG - RingArcBondAngle(num, endDist, bondDist, solve).value) * (num - 1) as real
         == solve(num, endDist, bondDist).value
  {
    var n1 := (num - 1) as real;
    var theta := solve(num, endDist, bondDist).value;
    assert theta / n1 * n1 == theta;
  }

  /** A one-atom arc with ends any positive distance apart takes the
      straight branch: 180 degrees, whatever the solver and bond distance,
      and no division by num - 1 happens. */
  lemma SingleAtomArcIsStraight(endDist: real, bondDist: real, solve: ArcSolver)
    requires endDist > 0.0
    ensures RingArcBondAngle(1, endDist, bondDist, solve) == Success(LIN_ANG)
  {
  }

  /** The shortcut is strict: ends exactly as far apart as the straight
      bonds reach still go to the solver, so its failure surfaces. */
  lemma ArcAtStraightLengthIsSolved(num: nat, bondDist: real, solve: ArcSolver)
    requires num >= 2
    requires solve(num, (num - 1) as real * bondDist, bondDist).None?
    ensures RingArcBondAngle(num, (num - 1) as real * bondDist, bondDist, solve) == Failure(NonConvergence)
  {
  }

  /** A solved arc subtending an angle strictly between 0 and 360 degrees
      bends every bond angle below linear, and by less than 360 / (num - 1). */
  lemma SolvedArcAngleBounds(num: nat, endDist: real, bondDist: real, solve: ArcSolver)
    requires endDist <= (num - 1) as real * bondDist && num >= 2
    requires solve(num, endDist, bondDist).Some?
    requires 0.0 < solve(num, endDist, bondDist).value < 360.0
    ensures RingArcBondAngle(num, endDist, bondDist, solve).Success?
    ensures LIN_ANG - 360.0 / (num - 1) as real < RingArcBondAngle(num, endDist, bondDist, solve).value < LIN_ANG
  {
    var theta := solve(num, endDist, bondDist).value;
    var n1 := (num - 1) as real;
    var gap := 360.0 / n1 - theta / n1;
    assert gap * n1 == 360.0 - theta;
    if gap <= 0.0 {
      assert false;
    }
  }

  // ---------------------------------------------------------------------
  // Z-matrices
  // ---------------------------------------------------------------------

  /** One z-matrix row: the atom's symbol, the rows its distance, angle and
      dihedral coordinates are measured against, and the three coordinate
      values; None where the row has no such coordinate. */
  datatype ZRow = ZRow(
    symbol: string,
    distRow: Option<nat>, angRow: Option<nat>, dihRow: Option<nat>,
    dist: Option<real>, ang: Option<real>, dih: Option<real>)

  type ZMatrix = seq<ZRow>

  predicate Distinct(keys: seq<Key>)
  {
    forall i, j :: 0 <= i < j < |keys| ==> keys[i] != keys[j]
  }

  /** The position of the last occurrence of `k` in `keys`: the row a
      key-to-row dictionary holds for `k` once the keys of `keys` have been
      placed in order, each overwriting any earlier entry. */
  function LastIndex(keys: seq<Key>, k: Key): (i: nat)
    requires k in keys
    ensures i < |keys| && keys[i] == k
    decreases |keys|
  {
    if keys[|keys| - 1] == k then |keys| - 1
    else
      assert k in keys[..|keys| - 1] by {
        var j :| 0 <= j < |keys| && keys[j] == k;
        assert keys[..|keys| - 1][j] == k;
      }
      LastIndex(keys[..|keys| - 1], k)
  }

  /** No later position holds `k`. */
  lemma {:induction false} LastIndexIsLast(keys: seq<Key>, k: Key)
    requires k in keys
    ensures forall j :: LastIndex(keys, k) < j < |keys| ==> keys[j] != k
    decreases |keys|
  {
    if keys[|keys| - 1] != k {
      var front := keys[..|keys| - 1];
      assert k in front by {
        var j :| 0 <= j < |keys| && keys[j] == k;
        assert front[j] == k;
      }
      LastIndexIsLast(front, k);
      forall j | LastIndex(keys, k) < j < |keys|
        ensures keys[j] != k
      {
        if j < |keys| - 1 {
          assert keys[j] == front[j];
        }
      }
    }
  }

  /** Placing one more key overwrites its own entry and leaves the others. */
  lemma LastIndexSnoc(keys: seq<Key>, x: Key, k: Key)
    requires k in keys + [x]
    ensures k == x ==> LastIndex(keys + [x], k) == |keys|
    ensures k != x ==> k in keys && LastIndex(keys + [x], k) == LastIndex(keys, k)
  {
    if k != x {
      assert (keys + [x])[..|keys|] == keys;
    }
  }

  /** With distinct keys each key's row is its own position. */
  lemma LastIndexOfDistinct(keys: seq<Key>, i: nat)
    requires Distinct(keys) && i < |keys|
    ensures LastIndex(keys, keys[i]) == i
  {
  }

  /** `rowDct` maps each key of `placed` to the row of its last placement. */
  ghost predicate RowsOf(rowDct: map<Key, nat>, placed: seq<Key>)
  {
    && (forall k :: k in rowDct <==> k in placed)
    && (forall k :: k in rowDct ==> k in placed && rowDct[k] == LastIndex(placed, k))
  }

  /** Writing row `idx` for the key at position `idx` extends the
      dictionary of the first `idx` keys to the first idx + 1. */
  lemma PlaceKey(rowDct: map<Key, nat>, keys: seq<Key>, idx: nat)
    requires idx < |keys| && RowsOf(rowDct, keys[..idx])
    ensures RowsOf(rowDct[keys[idx] := idx], keys[..idx + 1])
  {
    var placed := rowDct[keys[idx] := idx];
    assert keys[..idx + 1] == keys[..idx] + [keys[idx]];
    forall k | k in placed
      ensures k in keys[..idx + 1] && placed[k] == LastIndex(keys[..idx + 1], k)
    {
      LastIndexSnoc(keys[..idx], keys[idx], k);
    }
  }

  /** The row that position `i` refers to `back` places back: where the key
      placed `back` positions earlier was last placed among the first i + 1
      keys (the current key included, since its entry is written first). */
  function BackRow(keys: seq<Key>, i: nat, back: nat): (r: Option<nat>)
    requires i < |keys| && 1 <= back
    ensures r.Some? <==> back <= i
    ensures r.Some? ==> r.value <= i
  {
    if back <= i then Some(LastIndex(keys[..i + 1], keys[i - back])) else None
  }

  /** A back reference names a row holding the key `back` places earlier,
      no earlier than that key's own position; it is the current row itself
      exactly when the current key repeats that key. */
  lemma BackRowIsSelfIffRepeated(keys: seq<Key>, i: nat, back: nat)
    requires i < |keys| && 1 <= back <= i
    ensures keys[BackRow(keys, i, back).value] == keys[i - back]
    ensures i - back <= BackRow(keys, i, back).value
    ensures BackRow(keys, i, back).value == i <==> keys[i] == keys[i - back]
  {
    var placed := keys[..i + 1];
    assert placed[i - back] == keys[i - back];
    LastIndexIsLast(placed, keys[i - back]);
    assert placed[LastIndex(placed, keys[i - back])] == keys[LastIndex(placed, keys[i - back])];
  }

  /** With distinct keys the rows referred to are the previous one, two and
      three rows. */
  lemma BackRowOfDistinct(keys: seq<Key>, i: nat, back: nat)
    requires Distinct(keys) && i < |keys| && 1 <= back
    ensures BackRow(keys, i, back) == if back <= i then Some(i - back) else None
  {
    if back <= i {
      BackRowIsSelfIffRepeated(keys, i, back);
    }
  }

  /** A reference `back` places back from row `i` is present exactly when
      that many rows precede it, and names an earlier row. */
  predicate RefersBack(ref: Option<nat>, i: nat, back: nat)
  {
    (ref.Some? <==> back <= i) && (ref.Some? ==> ref.value < i)
  }

  /** The z-matrix invariant: the first row has no reference, the second
      only a distance reference, the third a distance and an angle
      reference, every later row all three, and all of them name earlier
      rows. */
  predicate ReferencesEarlierRows(zma: ZMatrix)
  {
    forall i :: 0 <= i < |zma| ==>
      RefersBack(zma[i].distRow, i, 1) && RefersBack(zma[i].angRow, i, 2) && RefersBack(zma[i].dihRow, i, 3)
  }

  /** Row `i` refers to rows i - 1, i - 2 and i - 3, as far as they exist. */
  predicate DistinctRowRefs(row: ZRow, i: nat)
  {
    && row.distRow == (if 1 <= i then Some(i - 1) else None)
    && row.angRow == (if 2 <= i then Some(i - 2) else None)
    && row.dihRow == (if 3 <= i then Some(i - 3) else None)
  }

  function SomeOf(r: Result<real, GeomError>): Result<Option<real>, GeomError>
  {
    match r
    case Success(v) => Success(Some(v))
    case Failure(e) => Failure(e)
  }

  /** A dictionary lookup: the value under `k`, or the KeyError naming `k`. */
  function Lookup(m: map<Key, string>, k: Key): (r: Result<string, GeomError>)
    ensures r.Success? <==> k in m
    ensures r.Success? ==> r.value == m[k]
    ensures r.Failure? ==> r.error == MissingKey(k)
  {
    if k in m then Success(m[k]) else Failure(MissingKey(k))
  }

  /** Row `i` of the chain z-matrix: the bond to the previous key, the angle
      at the previous key and a trans dihedral, as far as there are earlier
      keys; the distance is computed first, then the angle, then the
      symbol looked up. */
  function ChainRow(info: GraphInfo, keys: seq<Key>, i: nat): Result<ZRow, GeomError>
    requires i < |keys|
  {
    var dist :- if 1 <= i then SomeOf(HeuristicBondDistance(info, keys[i - 1], keys[i], true)) else Success(None);
    var ang :- if 2 <= i then SomeOf(HeuristicBondAngle(info, keys[i - 2], keys[i - 1], keys[i], true)) else Success(None);
    var dih := if 3 <= i then Some(TRA_DIH) else None;
    var symbol :- Lookup(info.symbols, keys[i]);
    Success(ZRow(symbol, BackRow(keys, i, 1), BackRow(keys, i, 2), BackRow(keys, i, 3), dist, ang, dih))
  }

  /** Row `i` of a ring (or arc) z-matrix: every row carries the same bond
      distance, bond angle and cis dihedral; only the symbol can be missing. */
  function RingRow(info: GraphInfo, keys: seq<Key>, i: nat, bondDist: real, bondAng: real): Result<ZRow, GeomError>
    requires i < |keys|
  {
    var symbol :- Lookup(info.symbols, keys[i]);
    Success(ZRow(symbol, BackRow(keys, i, 1), BackRow(keys, i, 2), BackRow(keys, i, 3),
                 Some(bondDist), Some(bondAng), Some(CIS_DIH)))
  }

  /** A built chain row: the symbol of its key; references to the rows of
      the one, two and three keys before it; the heuristic length of the bond
      to the previous key (X-H or heavy-atom) from the second row on, the
      ideal angle of the previous key's hybridization from the third row on,
      and a trans dihedral from the fourth row on. */
  lemma ChainRowShape(info: GraphInfo, keys: seq<Key>, i: nat)
    requires i < |keys| && ChainRow(info, keys, i).Success?
    ensures var row := ChainRow(info, keys, i).value;
      && keys[i] in info.symbols && row.symbol == info.symbols[keys[i]]
      && row.distRow == BackRow(keys, i, 1) && row.angRow == BackRow(keys, i, 2) && row.dihRow == BackRow(keys, i, 3)
      && (row.dist.Some? <==> 1 <= i) && (row.ang.Some? <==> 2 <= i)
      && (1 <= i ==> (row.dist.value == XH_DIST <==> IsHydrogen(info.symbols[keys[i - 1]]) || IsHydrogen(info.symbols[keys[i]])))
      && (1 <= i ==> row.dist.value == XH_DIST || row.dist.value == XY_DIST)
      && (2 <= i ==> keys[i - 1] in info.hybridizations
                     && Some(row.ang.value) == IdealAngle(info.hybridizations[keys[i - 1]]))
      && row.dih == if 3 <= i then Some(TRA_DIH) else None
  {
  }

  /** Row `i` can be built exactly when its key has a symbol, the key
      before it is its neighbour (and has a symbol), and the key before that
      and this key are both neighbours of the middle key, whose
      hybridization is supported. */
  lemma ChainRowSucceedsIff(info: GraphInfo, keys: seq<Key>, i: nat)
    requires i < |keys|
    ensures ChainRow(info, keys, i).Success? <==>
      && keys[i] in info.symbols
      && (1 <= i ==> keys[i] in info.neighbors && keys[i - 1] in info.neighbors[keys[i]] && keys[i - 1] in info.symbols)
      && (2 <= i ==> keys[i - 1] in info.neighbors
                     && keys[i - 2] in info.neighbors[keys[i - 1]] && keys[i] in info.neighbors[keys[i - 1]]
                     && keys[i - 1] in info.hybridizations && IdealAngle(info.hybridizations[keys[i - 1]]).Some?)
  {
  }

  /** A chain can be laid out exactly when every key has a symbol, each key
      is a neighbour of the next, and each inner key (centre of an angle) is
      bonded to both of its chain neighbours and has a supported
      hybridization. */
  predicate ChainBuildable(info: GraphInfo, keys: seq<Key>)
  {
    && (forall i :: 0 <= i < |keys| ==> keys[i] in info.symbols)
    && (forall i :: 1 <= i < |keys| ==> keys[i] in info.neighbors && keys[i - 1] in info.neighbors[keys[i]])
    && (forall i :: 1 <= i < |keys| - 1 ==>
          && keys[i] in info.neighbors
          && keys[i - 1] in info.neighbors[keys[i]] && keys[i + 1] in info.neighbors[keys[i]]
          && keys[i] in info.hybridizations && IdealAngle(info.hybridizations[keys[i]]).Some?)
  }

  lemma ChainRowsSucceedIffBuildable(info: GraphInfo, keys: seq<Key>)
    ensures (forall i :: 0 <= i < |keys| ==> ChainRow(info, keys, i).Success?) <==> ChainBuildable(info, keys)
  {
    if forall i :: 0 <= i < |keys| ==> ChainRow(info, keys, i).Success? {
      forall i | 0 <= i < |keys|
        ensures keys[i] in info.symbols
      {
        ChainRowSucceedsIff(info, keys, i);
      }
      forall i | 1 <= i < |keys|
        ensures keys[i] in info.neighbors && keys[i - 1] in info.neighbors[keys[i]]
      {
        ChainRowSucceedsIff(info, keys, i);
      }
      forall i | 1 <= i < |keys| - 1
        ensures keys[i] in info.neighbors
        ensures keys[i - 1] in info.neighbors[keys[i]] && keys[i + 1] in info.neighbors[keys[i]]
        ensures keys[i] in info.hybridizations && IdealAngle(info.hybridizations[keys[i]]).Some?
      {
        ChainRowSucceedsIff(info, keys, i + 1);
        assert keys[(i + 1) - 1] == keys[i] && keys[(i + 1) - 2] == keys[i - 1];
      }
    }
    if ChainBuildable(info, keys) {
      forall i | 0 <= i < |keys|
        ensures ChainRow(info, keys, i).Success?
      {
        ChainRowSucceedsIff(info, keys, i);
        if 1 <= i {
          assert keys[i - 1] in info.symbols;
        }
        if 2 <= i {
          var j := i - 1;
          assert 1 <= j < |keys| - 1 && keys[j + 1] == keys[i] && keys[j - 1] == keys[i - 2];
        }
      }
    }
  }

  /** A built ring row: the symbol of its key, the same back references as
      a chain row, and the ring's uniform bond distance, bond angle and cis
      dihedral. */
  lemma RingRowShape(info: GraphInfo, keys: seq<Key>, i: nat, bondDist: real, bondAng: real)
    requires i < |keys|
    ensures RingRow(info, keys, i, bondDist, bondAng).Success? <==> keys[i] in info.symbols
    ensures keys[i] !in info.symbols ==> RingRow(info, keys, i, bondDist, bondAng) == Failure(MissingKey(keys[i]))
    ensures RingRow(info, keys, i, bondDist, bondAng).Success? ==>
      var row := RingRow(info, keys, i, bondDist, bondAng).value;
      && row.symbol == info.symbols[keys[i]]
      && row.distRow == BackRow(keys, i, 1) && row.angRow == BackRow(keys, i, 2) && row.dihRow == BackRow(keys, i, 3)
      && row.dist == Some(bondDist) && row.ang == Some(bondAng) && row.dih == Some(CIS_DIH)
  {
  }

  /** Laying the same keys out as a ring or as a chain gives every row the
      same symbol and the same references; a row that a chain can build a
      ring can build too. */
  lemma RingAndChainShareReferences(info: GraphInfo, keys: seq<Key>, i: nat, bondDist: real, bondAng: real)
    requires i < |keys| && ChainRow(info, keys, i).Success?
    ensures RingRow(info, keys, i, bondDist, bondAng).Success?
    ensures var ring := RingRow(info, keys, i, bondDist, bondAng).value;
      var chain := ChainRow(info, keys, i).value;
      ring.symbol == chain.symbol
      && ring.distRow == chain.distRow && ring.angRow == chain.angRow && ring.dihRow == chain.dihRow
  {
    ChainRowShape(info, keys, i);
    RingRowShape(info, keys, i, bondDist, bondAng);
  }

  /** With distinct keys, a row built on back references refers to the
      previous one, two and three rows. */
  lemma DistinctBackRows(keys: seq<Key>, i: nat, row: ZRow)
    requires Distinct(keys) && i < |keys|
    requires row.distRow == BackRow(keys, i, 1) && row.angRow == BackRow(keys, i, 2) && row.dihRow == BackRow(keys, i, 3)
    ensures DistinctRowRefs(row, i)
  {
    BackRowOfDistinct(keys, i, 1);
    BackRowOfDistinct(keys, i, 2);
    BackRowOfDistinct(keys, i, 3);
  }

  /** With distinct keys, rows built on back references name the previous
      one, two and three rows, so the z-matrix refers to earlier rows only. */
  lemma DistinctKeysReferenceEarlierRows(keys: seq<Key>, zma: ZMatrix)
    requires Distinct(keys) && |zma| == |keys|
    requires forall i :: 0 <= i < |keys| ==>
      zma[i].distRow == BackRow(keys, i, 1) && zma[i].angRow == BackRow(keys, i, 2) && zma[i].dihRow == BackRow(keys, i, 3)
    ensures ReferencesEarlierRows(zma)
  {
    forall i | 0 <= i < |zma|
      ensures RefersBack(zma[i].distRow, i, 1) && RefersBack(zma[i].angRow, i, 2) && RefersBack(zma[i].dihRow, i, 3)
    {
      BackRowOfDistinct(keys, i, 1);
      BackRowOfDistinct(keys, i, 2);
      BackRowOfDistinct(keys, i, 3);
    }
  }

  // ---------------------------------------------------------------------
  // Whole z-matrices
  // ---------------------------------------------------------------------

  /** Each key's row once all of `keys` are placed: the row of its last
      placement. */
  function KeyRows(keys: seq<Key>): (rows: seq<nat>)
    ensures |rows| == |keys|
  {
    seq(|keys|, i requires 0 <= i < |keys| => LastIndex(keys, keys[i]))
  }

  /** A key's row holds that key, at or after the key's position; with
      distinct keys it is the key's own position. */
  lemma KeyRowsHoldTheirKeys(keys: seq<Key>)
    ensures forall i :: 0 <= i < |keys| ==> i <= KeyRows(keys)[i] < |keys| && keys[KeyRows(keys)[i]] == keys[i]
    ensures Distinct(keys) ==> forall i :: 0 <= i < |keys| ==> KeyRows(keys)[i] == i
  {
    forall i | 0 <= i < |keys|
      ensures i <= KeyRows(keys)[i] < |keys| && keys[KeyRows(keys)[i]] == keys[i]
      ensures Distinct(keys) ==> KeyRows(keys)[i] == i
    {
      LastIndexIsLast(keys, keys[i]);
      if Distinct(keys) {
        LastIndexOfDistinct(keys, i);
      }
    }
  }

  /** Rows built one after another, stopping at the first that cannot be
      built: the z-matrix of all of them, or that row's error. */
  function BuildRows(results: seq<Result<ZRow, GeomError>>): (r: Result<ZMatrix, GeomError>)
    ensures r.Success? ==> |r.value| == |results|
    ensures r.Success? && |results| > 0 ==> results[|results| - 1] == Success(r.value[|results| - 1])
  {
    if |results| == 0 then Success([])
    else
      var front :- BuildRows(results[..|results| - 1]);
      var row :- results[|results| - 1];
      Success(front + [row])
  }

  /** All rows are built exactly when each of them can be, and then they
      are the rows in order. */
  lemma {:induction false} BuildRowsByRow(results: seq<Result<ZRow, GeomError>>)
    ensures BuildRows(results).Success? <==> forall i :: 0 <= i < |results| ==> results[i].Success?
    ensures BuildRows(results).Success? ==>
      |BuildRows(results).value| == |results|
      && forall i :: 0 <= i < |results| ==> BuildRows(results).value[i] == results[i].value
  {
    if |results| > 0 {
      var front := results[..|results| - 1];
      BuildRowsByRow(front);
      assert forall i :: 0 <= i < |front| ==> front[i] == results[i];
    }
  }

  /** When not all rows can be built, the error is that of the first row
      that cannot. */
  lemma {:induction false} BuildRowsFirstFailure(results: seq<Result<ZRow, GeomError>>)
    requires BuildRows(results).Failure?
    ensures exists i :: (0 <= i < |results| && results[i] == Failure(BuildRows(results).error)
      && (forall j :: 0 <= j < i ==> results[j].Success?))
  {
    var front := results[..|results| - 1];
    assert forall j :: 0 <= j < |front| ==> front[j] == results[j];
    if BuildRows(front).Failure? {
      BuildRowsFirstFailure(front);
      var i :| 0 <= i < |front| && front[i] == Failure(BuildRows(front).error)
        && (forall j :: 0 <= j < i ==> front[j].Success?);
      assert results[i] == Failure(BuildRows(results).error);
    } else {
      BuildRowsByRow(front);
      assert results[|results| - 1] == Failure(BuildRows(results).error);
    }
  }

  /** Once a prefix fails, every longer prefix fails the same way. */
  lemma {:induction false} BuildRowsFailureSticks(results: seq<Result<ZRow, GeomError>>, n: nat, m: nat)
    requires n <= m <= |results| && BuildRows(results[..n]).Failure?
    ensures BuildRows(results[..m]) == BuildRows(results[..n])
    decreases m
  {
    if n < m {
      BuildRowsFailureSticks(results, n, m - 1);
      assert results[..m][..m - 1] == results[..m - 1];
    }
  }

  /** Building row `idx` after the rows before it: a built row extends the
      z-matrix, a failing one is the failure of the whole build. */
  lemma BuildRowsStep(results: seq<Result<ZRow, GeomError>>, idx: nat, zma: ZMatrix)
    requires idx < |results| && BuildRows(results[..idx]) == Success(zma)
    ensures results[idx].Success? ==> BuildRows(results[..idx + 1]) == Success(zma + [results[idx].value])
    ensures results[idx].Failure? ==> BuildRows(results) == Failure(results[idx].error)
  {
    assert results[..idx + 1][..idx] == results[..idx];
    assert results[..idx + 1][idx] == results[idx];
    if results[idx].Failure? {
      BuildRowsFailureSticks(results, idx + 1, |results|);
      assert results[..|results|] == results;
    }
  }

  /** The chain row of every position of `keys`. */
  function ChainRowResults(info: GraphInfo, keys: seq<Key>): (results: seq<Result<ZRow, GeomError>>)
    ensures |results| == |keys|
    ensures forall i :: 0 <= i < |keys| ==> results[i] == ChainRow(info, keys, i)
  {
    seq(|keys|, i requires 0 <= i < |keys| => ChainRow(info, keys, i))
  }

  /** The chain z-matrix of `keys` with each key's row. */
  function ChainZMatrixOf(info: GraphInfo, keys: seq<Key>): Result<(ZMatrix, seq<nat>), GeomError>
  {
    var zma :- BuildRows(ChainRowResults(info, keys));
    Success((zma, KeyRows(keys)))
  }

  /** A chain z-matrix exists exactly when the chain is buildable; its rows
      are the chain rows in order, one per key, and each key's row holds
      that key. Otherwise its error is that of the first row that cannot be
      built. */
  lemma ChainZMatrixOfRows(info: GraphInfo, keys: seq<Key>)
    ensures ChainZMatrixOf(info, keys).Success? <==> ChainBuildable(info, keys)
    ensures ChainZMatrixOf(info, keys).Success? ==>
      var (zma, rows) := ChainZMatrixOf(info, keys).value;
      && |zma| == |keys| && |rows| == |keys|
      && (forall i :: 0 <= i < |keys| ==> zma[i] == ChainRow(info, keys, i).value)
      && (forall i :: 0 <= i < |keys| ==> rows[i] < |keys| && keys[rows[i]] == keys[i])
    ensures ChainZMatrixOf(info, keys).Failure? ==>
      exists i :: 0 <= i < |keys| && ChainRow(info, keys, i) == Failure(ChainZMatrixOf(info, keys).error)
        && (forall j :: 0 <= j < i ==> ChainRow(info, keys, j).Success?)
  {
    var results := ChainRowResults(info, keys);
    BuildRowsByRow(results);
    ChainRowsSucceedIffBuildable(info, keys);
    KeyRowsHoldTheirKeys(keys);
    if BuildRows(results).Failure? {
      BuildRowsFirstFailure(results);
    }
  }

  /** For distinct keys, the rows are 0, 1, 2, ... in key order and the
      z-matrix refers to earlier rows only. */
  lemma ChainZMatrixOfDistinct(info: GraphInfo, keys: seq<Key>)
    requires Distinct(keys) && ChainZMatrixOf(info, keys).Success?
    ensures forall i :: 0 <= i < |keys| ==> ChainZMatrixOf(info, keys).value.1[i] == i
    ensures ReferencesEarlierRows(ChainZMatrixOf(info, keys).value.0)
    ensures forall i :: 0 <= i < |keys| ==> DistinctRowRefs(ChainZMatrixOf(info, keys).value.0[i], i)
  {
    var zma := ChainZMatrixOf(info, keys).value.0;
    BuildRowsByRow(ChainRowResults(info, keys));
    KeyRowsHoldTheirKeys(keys);
    forall i | 0 <= i < |keys|
      ensures zma[i].distRow == BackRow(keys, i, 1) && zma[i].angRow == BackRow(keys, i, 2)
      ensures zma[i].dihRow == BackRow(keys, i, 3)
    {
      ChainRowShape(info, keys, i);
    }
    forall i | 0 <= i < |keys|
      ensures DistinctRowRefs(zma[i], i)
    {
      DistinctBackRows(keys, i, zma[i]);
    }
    DistinctKeysReferenceEarlierRows(keys, zma);
  }

  /** Built from a graph, each row of the chain z-matrix carries the graph's
      own symbol for its key, and a chain key that is not an atom of the
      graph cannot be placed. */
  lemma ChainZMatrixOfGraph(graph: GraphBase.Graph, neighbors: map<Key, set<Key>>, hybridizations: map<Key, int>, keys: seq<Key>)
    ensures var r := ChainZMatrixOf(InfoOf(graph, neighbors, hybridizations), keys);
      r.Success? ==>
        forall i :: 0 <= i < |keys| ==>
          keys[i] in GraphBase.Atoms(graph) && r.value.0[i].symbol == GraphBase.Atoms(graph)[keys[i]].symbol
  {
    var info := InfoOf(graph, neighbors, hybridizations);
    ChainZMatrixOfRows(info, keys);
    if ChainZMatrixOf(info, keys).Success? {
      forall i | 0 <= i < |keys|
        ensures keys[i] in GraphBase.Atoms(graph)
        ensures ChainZMatrixOf(info, keys).value.0[i].symbol == GraphBase.Atoms(graph)[keys[i]].symbol
      {
        ChainRowShape(info, keys, i);
      }
    }
  }

  /** The ring row of every position of `keys`. */
  function RingRowResults(info: GraphInfo, keys: seq<Key>, bondDist: real, bondAng: real): (results: seq<Result<ZRow, GeomError>>)
    ensures |results| == |keys|
    ensures forall i :: 0 <= i < |keys| ==> results[i] == RingRow(info, keys, i, bondDist, bondAng)
  {
    seq(|keys|, i requires 0 <= i < |keys| => RingRow(info, keys, i, bondDist, bondAng))
  }

  /** The ring (or arc) z-matrix of `keys` with each key's row: the bond
      angle closing an arc of |keys| atoms, then the rows. */
  function RingZMatrixOf(info: GraphInfo, keys: seq<Key>, bondDist: real, endDist: real, solve: ArcSolver)
    : Result<(ZMatrix, seq<nat>), GeomError>
  {
    var bondAng :- RingArcBondAngle(|keys|, endDist, bondDist, solve);
    var zma :- BuildRows(RingRowResults(info, keys, bondDist, bondAng));
    Success((zma, KeyRows(keys)))
  }

  /** The ring rows of `keys` are built exactly when every key has a symbol,
      the error otherwise naming the first key without one; the built rows
      all carry `bondDist`, `bondAng` and a cis dihedral. */
  lemma RingRowsBuilt(info: GraphInfo, keys: seq<Key>, bondDist: real, bondAng: real)
    ensures BuildRows(RingRowResults(info, keys, bondDist, bondAng)).Success? <==>
      forall i :: 0 <= i < |keys| ==> keys[i] in info.symbols
    ensures BuildRows(RingRowResults(info, keys, bondDist, bondAng)).Failure? ==>
      exists i :: (0 <= i < |keys| && keys[i] !in info.symbols
        && BuildRows(RingRowResults(info, keys, bondDist, bondAng)).error == MissingKey(keys[i])
        && (forall j :: 0 <= j < i ==> keys[j] in info.symbols))
    ensures BuildRows(RingRowResults(info, keys, bondDist, bondAng)).Success? ==>
      var zma := BuildRows(RingRowResults(info, keys, bondDist, bondAng)).value;
      && |zma| == |keys|
      && (forall i :: 0 <= i < |keys| ==>
            && zma[i] == RingRow(info, keys, i, bondDist, bondAng).value
            && zma[i].symbol == info.symbols[keys[i]]
            && zma[i].dist == Some(bondDist) && zma[i].ang == Some(bondAng)
            && zma[i].dih == Some(CIS_DIH))
      && (Distinct(keys) ==> ReferencesEarlierRows(zma))
  {
    var results := RingRowResults(info, keys, bondDist, bondAng);
    BuildRowsByRow(results);
    forall i | 0 <= i < |keys| {
      RingRowShape(info, keys, i, bondDist, bondAng);
    }
    var built := BuildRows(results);
    if built.Success? {
      if Distinct(keys) {
        DistinctKeysReferenceEarlierRows(keys, built.value);
      }
    } else {
      BuildRowsFirstFailure(results);
    }
  }

  /** A ring z-matrix fails with the arc-angle error when the arc cannot be
      closed, and otherwise exists exactly when every key has a symbol (the
      error naming the first key without one); its rows then all carry
      `bondDist`, the arc's bond angle and a cis dihedral, and for distinct
      keys the rows are 0, 1, 2, ... and refer to earlier rows only. */
  lemma RingZMatrixOfRows(info: GraphInfo, keys: seq<Key>, bondDist: real, endDist: real, solve: ArcSolver)
    ensures RingArcBondAngle(|keys|, endDist, bondDist, solve).Failure? ==>
      RingZMatrixOf(info, keys, bondDist, endDist, solve) == Failure(RingArcBondAngle(|keys|, endDist, bondDist, solve).error)
    ensures RingZMatrixOf(info, keys, bondDist, endDist, solve).Success? <==>
      RingArcBondAngle(|keys|, endDist, bondDist, solve).Success? && forall i :: 0 <= i < |keys| ==> keys[i] in info.symbols
    ensures RingArcBondAngle(|keys|, endDist, bondDist, solve).Success? && RingZMatrixOf(info, keys, bondDist, endDist, solve).Failure? ==>
      exists i :: (0 <= i < |keys| && keys[i] !in info.symbols
        && RingZMatrixOf(info, keys, bondDist, endDist, solve).error == MissingKey(keys[i])
        && (forall j :: 0 <= j < i ==> keys[j] in info.symbols))
    ensures RingZMatrixOf(info, keys, bondDist, endDist, solve).Success? ==>
      var (zma, rows) := RingZMatrixOf(info, keys, bondDist, endDist, solve).value;
      && |zma| == |keys| && |rows| == |keys|
      && (forall i :: 0 <= i < |keys| ==>
            && zma[i].symbol == info.symbols[keys[i]]
            && zma[i].dist == Some(bondDist)
            && zma[i].ang == Some(RingArcBondAngle(|keys|, endDist, bondDist, solve).value)
            && zma[i].dih == Some(CIS_DIH)
            && zma[i] == RingRow(info, keys, i, bondDist, RingArcBondAngle(|keys|, endDist, bondDist, solve).value).value)
      && (Distinct(keys) ==> ReferencesEarlierRows(zma) && forall i :: 0 <= i < |keys| ==> rows[i] == i)
  {
    var arc := RingArcBondAngle(|keys|, endDist, bondDist, solve);
    if arc.Success? {
      RingRowsBuilt(info, keys, bondDist, arc.value);
      KeyRowsHoldTheirKeys(keys);
    }
  }

  /** With distinct keys, every row of a ring z-matrix refers to the
      previous one, two and three rows, as far as they exist. */
  lemma RingZMatrixOfDistinct(info: GraphInfo, keys: seq<Key>, bondDist: real, endDist: real, solve: ArcSolver)
    requires Distinct(keys) && RingZMatrixOf(info, keys, bondDist, endDist, solve).Success?
    ensures forall i :: 0 <= i < |keys| ==> DistinctRowRefs(RingZMatrixOf(info, keys, bondDist, endDist, solve).value.0[i], i)
  {
    var bondAng := RingArcBondAngle(|keys|, endDist, bondDist, solve).value;
    var results := RingRowResults(info, keys, bondDist, bondAng);
    var zma := BuildRows(results).value;
    BuildRowsByRow(results);
    forall i | 0 <= i < |keys|
      ensures DistinctRowRefs(zma[i], i)
    {
      RingRowShape(info, keys, i, bondDist, bondAng);
      DistinctBackRows(keys, i, zma[i]);
    }
  }

  // ---------------------------------------------------------------------
  // The builders
  // ---------------------------------------------------------------------

  /** After the key at position `idx` has been written, the key `back`
      places earlier is in the dictionary, at the row BackRow names. */
  lemma WindowRow(rowDct: map<Key, nat>, keys: seq<Key>, idx: nat, back: nat)
    requires idx < |keys| && 1 <= back <= idx && RowsOf(rowDct, keys[..idx + 1])
    ensures keys[idx - back] in rowDct && Some(rowDct[keys[idx - back]]) == BackRow(keys, idx, back)
  {
    assert keys[..idx + 1][idx - back] == keys[idx - back];
  }

  /** Once every key has been placed, looking each key up in the
      dictionary gives KeyRows. */
  lemma PlacedRows(rowDct: map<Key, nat>, keys: seq<Key>)
    requires RowsOf(rowDct, keys[..|keys|])
    ensures forall i :: 0 <= i < |keys| ==> keys[i] in rowDct && rowDct[keys[i]] == KeyRows(keys)[i]
  {
    assert keys[..|keys|] == keys;
    forall i | 0 <= i < |keys|
      ensures keys[i] in rowDct && rowDct[keys[i]] == KeyRows(keys)[i]
    {
      assert keys[..|keys|][i] == keys[i];
    }
  }

  /** The row placed at `idx` from the window of the keys before it: their
      rows, the heuristic distance to the previous key and angle at it, and
      the trans dihedral, each present once there are enough earlier keys. */
  lemma ChainRowFromWindow(info: GraphInfo, keys: seq<Key>, idx: nat, symbol: string,
                           row3: Option<nat>, row2: Option<nat>, row1: Option<nat>,
                           r34: Option<real>, a234: Option<real>, d1234: Option<real>)
    requires idx < |keys| && keys[idx] in info.symbols && symbol == info.symbols[keys[idx]]
    requires row3 == BackRow(keys, idx, 1) && row2 == BackRow(keys, idx, 2) && row1 == BackRow(keys, idx, 3)
    requires 1 <= idx ==> SomeOf(HeuristicBondDistance(info, keys[idx - 1], keys[idx], true)) == Success(r34)
    requires idx < 1 ==> r34.None?
    requires 2 <= idx ==> SomeOf(HeuristicBondAngle(info, keys[idx - 2], keys[idx - 1], keys[idx], true)) == Success(a234)
    requires idx < 2 ==> a234.None?
    requires d1234 == if 3 <= idx then Some(TRA_DIH) else None
    ensures ChainRow(info, keys, idx) == Success(ZRow(symbol, row3, row2, row1, r34, a234, d1234))
  {
  }

  /** The z-matrix of a chain of atoms, placed in the order of `chainKeys`,
      with each key's row. */
  method ChainZMatrix(info: GraphInfo, chainKeys: seq<Key>) returns (r: Result<(ZMatrix, seq<nat>), GeomError>)
    ensures r == ChainZMatrixOf(info, chainKeys)
  {
    ghost var results := ChainRowResults(info, chainKeys);
    var symbols := info.symbols;
    var rowDct: map<Key, nat> := map[];
    var zma: ZMatrix := [];
    var key3: Option<Key>, row3: Option<nat>, r34: Option<real> := None, None, None;
    var key2: Option<Key>, row2: Option<nat>, a234: Option<real> := None, None, None;
    var key1: Option<Key>, row1: Option<nat>, d1234: Option<real> := None, None, None;
    for idx := 0 to |chainKeys|
      invariant BuildRows(results[..idx]) == Success(zma)
      invariant |zma| == idx
      invariant RowsOf(rowDct, chainKeys[..idx])
      invariant key3 == if 1 <= idx then Some(chainKeys[idx - 1]) else None
      invariant key2 == if 2 <= idx then Some(chainKeys[idx - 2]) else None
      invariant key1 == if 3 <= idx then Some(chainKeys[idx - 3]) else None
      invariant idx < 1 ==> row3.None? && r34.None?
      invariant idx < 2 ==> row2.None? && a234.None?
      invariant idx < 3 ==> row1.None? && d1234.None?
    {
      var key4 := chainKeys[idx];
      PlaceKey(rowDct, chainKeys, idx);
      rowDct := rowDct[key4 := |zma|];

      if key3.Some? {
        WindowRow(rowDct, chainKeys, idx, 1);
        row3 := Some(rowDct[key3.value]);
        var dist := HeuristicBondDistance(info, key3.value, key4, true);
        if dist.Failure? {
          assert results[idx] == Failure(dist.error);
          BuildRowsStep(results, idx, zma);
          return Failure(dist.error);
        }
        r34 := Some(dist.value);
      }

      if key2.Some? {
        WindowRow(rowDct, chainKeys, idx, 2);
        row2 := Some(rowDct[key2.value]);
        var ang := HeuristicBondAngle(info, key2.value, key3.value, key4, true);
        if ang.Failure? {
          assert results[idx] == Failure(ang.error);
          BuildRowsStep(results, idx, zma);
          return Failure(ang.error);
        }
        a234 := Some(ang.value);
      }

      if key1.Some? {
        WindowRow(rowDct, chainKeys, idx, 3);
        row1 := Some(rowDct[key1.value]);
        d1234 := Some(TRA_DIH);
      }

      if key4 !in symbols {
        assert results[idx] == Failure(MissingKey(key4));
        BuildRowsStep(results, idx, zma);
        return Failure(MissingKey(key4));
      }
      ChainRowFromWindow(info, chainKeys, idx, symbols[key4], row3, row2, row1, r34, a234, d1234);
      BuildRowsStep(results, idx, zma);
      zma := zma + [ZRow(symbols[key4], row3, row2, row1, r34, a234, d1234)];

      key1, key2, key3 := key2, key3, Some(key4);
    }
    PlacedRows(rowDct, chainKeys);
    var chainRows := seq(|chainKeys|, i requires 0 <= i < |chainKeys| => rowDct[chainKeys[i]]);
    assert chainRows == KeyRows(chainKeys);
    assert results[..|chainKeys|] == results;
    return Success((zma, chainRows));
  }

  /** The z-matrix of a ring (or of an arc between two atoms `endDist`
      apart) of `ringKeys`, with each key's row: the bond angle closing an
      arc of |ringKeys| atoms is found before any key is placed, and every
      row carries it together with `bondDist` and a cis dihedral. */
  method RingZMatrix(info: GraphInfo, ringKeys: seq<Key>, bondDist: real, endDist: real, solve: ArcSolver)
    returns (r: Result<(ZMatrix, seq<nat>), GeomError>)
    ensures r == RingZMatrixOf(info, ringKeys, bondDist, endDist, solve)
  {
    var num := |ringKeys|;
    var arc := RingArcBondAngle(num, endDist, bondDist, solve);
    if arc.Failure? {
      return Failure(arc.error);
    }
    var bondAng := arc.value;
    ghost var results := RingRowResults(info, ringKeys, bondDist, bondAng);

    var symbols := info.symbols;
    var rowDct: map<Key, nat> := map[];
    var zma: ZMatrix := [];
    var key3: Option<Key>, row3: Option<nat> := None, None;
    var key2: Option<Key>, row2: Option<nat> := None, None;
    var key1: Option<Key>, row1: Option<nat> := None, None;
    var r34, a234, d1234 := bondDist, bondAng, CIS_DIH;
    for idx := 0 to |ringKeys|
      invariant BuildRows(results[..idx]) == Success(zma)
      invariant |zma| == idx
      invariant RowsOf(rowDct, ringKeys[..idx])
      invariant key3 == if 1 <= idx then Some(ringKeys[idx - 1]) else None
      invariant key2 == if 2 <= idx then Some(ringKeys[idx - 2]) else None
      invariant key1 == if 3 <= idx then Some(ringKeys[idx - 3]) else None
      invariant idx < 1 ==> row3.None?
      invariant idx < 2 ==> row2.None?
      invariant idx < 3 ==> row1.None?
    {
      var key4 := ringKeys[idx];
      PlaceKey(rowDct, ringKeys, idx);
      rowDct := rowDct[key4 := |zma|];

      if key3.Some? {
        WindowRow(rowDct, ringKeys, idx, 1);
        row3 := Some(rowDct[key3.value]);
      }

      if key2.Some? {
        WindowRow(rowDct, ringKeys, idx, 2);
        row2 := Some(rowDct[key2.value]);
      }

      if key1.Some? {
        WindowRow(rowDct, ringKeys, idx, 3);
        row1 := Some(rowDct[key1.value]);
      }

      if key4 !in symbols {
        assert results[idx] == Failure(MissingKey(key4));
        BuildRowsStep(results, idx, zma);
        return Failure(MissingKey(key4));
      }
      assert results[idx] == Success(ZRow(symbols[key4], row3, row2, row1, Some(r34), Some(a234), Some(d1234)));
      BuildRowsStep(results, idx, zma);
      zma := zma + [ZRow(symbols[key4], row3, row2, row1, Some(r34), Some(a234), Some(d1234))];

      key1, key2, key3 := key2, key3, Some(key4);
    }
    PlacedRows(rowDct, ringKeys);
    var ringRows := seq(|ringKeys|, i requires 0 <= i < |ringKeys| => rowDct[ringKeys[i]]);
    assert ringRows == KeyRows(ringKeys);
    assert results[..|ringKeys|] == results;
    return Success((zma, ringRows));
  }
}
