/** The base molecular graph: a pair of an atom dictionary and a bond
    dictionary, its getters, its setters, atom-key relabelling and the
    one-indexing key shift that the graph's text form applies. Every
    operation builds a new value; nothing is updated in place. */
module GraphBase {
  import opened Wrappers

  type AtomKey = int

  /** A bond key is the unordered pair of the bonded atoms' keys. */
  type BondKey = set<AtomKey>

  /** The atom property tuple. Position 0 is the symbol, position 1 the
      implicit-hydrogen valence, position 2 the stereo parity (None when
      the atom has none). */
  datatype AtomProps = AtomProps(symbol: string, implicitHydrogenValence: int, stereoParity: Option<bool>)

  /** The bond property tuple. Position 0 is the bond order, position 1 the
      stereo parity. */
  datatype BondProps = BondProps(order: int, stereoParity: Option<bool>)

  type AtomDict = map<AtomKey, AtomProps>
  type BondDict = map<BondKey, BondProps>

  /** A graph is the pair (atom dictionary, bond dictionary). */
  type Graph = (AtomDict, BondDict)

  datatype GraphError =
    | MappingKeysNotAtoms   // the relabelling mapping names a key that is not an atom
    | BondAtomNotRelabelled // a bond endpoint has no image under the relabelling (a KeyError)

  // ---------------------------------------------------------------------
  // Construction and the two components
  // ---------------------------------------------------------------------

  /** The graph made of an atom and a bond dictionary; each is given back
      by its accessor. */
  function FromAtomsAndBonds(atomDct: AtomDict, bondDct: BondDict): (g: Graph)
    ensures Atoms(g) == atomDct && Bonds(g) == bondDct
  {
    (atomDct, bondDct)
  }

  /** The atom dictionary of `g`. */
  function Atoms(g: Graph): AtomDict
  {
    g.0
  }

  /** The bond dictionary of `g`. */
  function Bonds(g: Graph): BondDict
  {
    g.1
  }

  /** Building a graph from its components and taking it apart again are
      inverse to each other, in both orders. */
  lemma AtomsBondsRoundTrip(g: Graph, atomDct: AtomDict, bondDct: BondDict)
    ensures FromAtomsAndBonds(Atoms(g), Bonds(g)) == g
    ensures Atoms(FromAtomsAndBonds(atomDct, bondDct)) == atomDct
    ensures Bonds(FromAtomsAndBonds(atomDct, bondDct)) == bondDct
  {
  }

  function AtomKeys(g: Graph): (keys: set<AtomKey>)
    ensures forall k :: k in keys <==> k in Atoms(g)
  {
    Atoms(g).Keys
  }

  function BondKeys(g: Graph): (keys: set<BondKey>)
    ensures forall b :: b in keys <==> b in Bonds(g)
  {
    Bonds(g).Keys
  }

  /** Every bond endpoint is an atom of the graph. */
  predicate BondsWithinAtoms(g: Graph)
  {
    forall b :: b in Bonds(g) ==> b <= AtomKeys(g)
  }

  // ---------------------------------------------------------------------
  // Getters: one tuple position for every key
  // ---------------------------------------------------------------------

  /** The value at one tuple position (given as its projection `at`), for
      each of the given keys. */
  function ByKeyByPosition<K, P, V>(m: map<K, P>, keys: set<K>, at: P -> V): (r: map<K, V>)
    requires keys <= m.Keys
    ensures r.Keys == keys
    ensures forall k :: k in r ==> r[k] == at(m[k])
  {
    map k | k in keys :: at(m[k])
  }

  function AtomSymbols(g: Graph): (r: map<AtomKey, string>)
    ensures r.Keys == AtomKeys(g)
    ensures forall k :: k in r ==> r[k] == Atoms(g)[k].symbol
  {
    ByKeyByPosition(Atoms(g), AtomKeys(g), (p: AtomProps) => p.symbol)
  }

  function AtomImplicitHydrogenValences(g: Graph): (r: map<AtomKey, int>)
    ensures r.Keys == AtomKeys(g)
    ensures forall k :: k in r ==> r[k] == Atoms(g)[k].implicitHydrogenValence
  {
    ByKeyByPosition(Atoms(g), AtomKeys(g), (p: AtomProps) => p.implicitHydrogenValence)
  }

  function AtomStereoParities(g: Graph): (r: map<AtomKey, Option<bool>>)
    ensures r.Keys == AtomKeys(g)
    ensures forall k :: k in r ==> r[k] == Atoms(g)[k].stereoParity
  {
    ByKeyByPosition(Atoms(g), AtomKeys(g), (p: AtomProps) => p.stereoParity)
  }

  function BondOrders(g: Graph): (r: map<BondKey, int>)
    ensures r.Keys == BondKeys(g)
    ensures forall b :: b in r ==> r[b] == Bonds(g)[b].order
  {
    ByKeyByPosition(Bonds(g), BondKeys(g), (p: BondProps) => p.order)
  }

  function BondStereoParities(g: Graph): (r: map<BondKey, Option<bool>>)
    ensures r.Keys == BondKeys(g)
    ensures forall b :: b in r ==> r[b] == Bonds(g)[b].stereoParity
  {
    ByKeyByPosition(Bonds(g), BondKeys(g), (p: BondProps) => p.stereoParity)
  }

  // ---------------------------------------------------------------------
  // Setters: replace one tuple position for the keys given
  // ---------------------------------------------------------------------

  /** Replaces, through `put`, one tuple position of every entry whose key
      the value dictionary `d` names; other entries are kept. */
  function SetByKeyByPosition<K, P, V>(m: map<K, P>, d: map<K, V>, put: (P, V) -> P): (r: map<K, P>)
    ensures r.Keys == m.Keys
    ensures forall k :: k in r ==> r[k] == if k in d then put(m[k], d[k]) else m[k]
  {
    map k | k in m :: if k in d then put(m[k], d[k]) else m[k]
  }

  function SetAtomImplicitHydrogenValences(g: Graph, d: map<AtomKey, int>): (r: Graph)
    ensures Bonds(r) == Bonds(g)
    ensures AtomKeys(r) == AtomKeys(g)
    ensures forall k :: k in Atoms(r) ==>
      Atoms(r)[k] == if k in d then Atoms(g)[k].(implicitHydrogenValence := d[k]) else Atoms(g)[k]
  {
    var atomDct := SetByKeyByPosition(Atoms(g), d,
      (p: AtomProps, v: int) => p.(implicitHydrogenValence := v));
    FromAtomsAndBonds(atomDct, Bonds(g))
  }

  function SetAtomStereoParities(g: Graph, d: map<AtomKey, Option<bool>>): (r: Graph)
    ensures Bonds(r) == Bonds(g)
    ensures AtomKeys(r) == AtomKeys(g)
    ensures forall k :: k in Atoms(r) ==>
      Atoms(r)[k] == if k in d then Atoms(g)[k].(stereoParity := d[k]) else Atoms(g)[k]
  {
    var atomDct := SetByKeyByPosition(Atoms(g), d,
      (p: AtomProps, v: Option<bool>) => p.(stereoParity := v));
    FromAtomsAndBonds(atomDct, Bonds(g))
  }

  function SetBondOrders(g: Graph, d: map<BondKey, int>): (r: Graph)
    ensures Atoms(r) == Atoms(g)
    ensures BondKeys(r) == BondKeys(g)
    ensures forall b :: b in Bonds(r) ==>
      Bonds(r)[b] == if b in d then Bonds(g)[b].(order := d[b]) else Bonds(g)[b]
  {
    var bondDct := SetByKeyByPosition(Bonds(g), d,
      (p: BondProps, v: int) => p.(order := v));
    FromAtomsAndBonds(Atoms(g), bondDct)
  }

  function SetBondStereoParities(g: Graph, d: map<BondKey, Option<bool>>): (r: Graph)
    ensures Atoms(r) == Atoms(g)
    ensures BondKeys(r) == BondKeys(g)
    ensures forall b :: b in Bonds(r) ==>
      Bonds(r)[b] == if b in d then Bonds(g)[b].(stereoParity := d[b]) else Bonds(g)[b]
  {
    var bondDct := SetByKeyByPosition(Bonds(g), d,
      (p: BondProps, v: Option<bool>) => p.(stereoParity := v));
    FromAtomsAndBonds(Atoms(g), bondDct)
  }

  /** The entries of `d` whose keys lie in `keys`. */
  function Restrict<K, V>(d: map<K, V>, keys: set<K>): (r: map<K, V>)
    ensures r.Keys == d.Keys * keys
    ensures forall k :: k in r ==> r[k] == d[k]
  {
    map k | k in d && k in keys :: d[k]
  }

  /** Reading the implicit-hydrogen valences back after setting them gives
      the old valences overridden by the new ones (for atoms of the graph);
      every other position of every tuple reads as before. */
  lemma SetAtomImplicitHydrogenValencesGetters(g: Graph, d: map<AtomKey, int>)
    ensures var r := SetAtomImplicitHydrogenValences(g, d);
      && AtomImplicitHydrogenValences(r) == AtomImplicitHydrogenValences(g) + Restrict(d, AtomKeys(g))
      && AtomSymbols(r) == AtomSymbols(g)
      && AtomStereoParities(r) == AtomStereoParities(g)
      && BondOrders(r) == BondOrders(g)
      && BondStereoParities(r) == BondStereoParities(g)
  {
  }

  /** Setting the valences a graph already has gives back the same graph. */
  lemma SetAtomImplicitHydrogenValencesOwn(g: Graph)
    ensures SetAtomImplicitHydrogenValences(g, AtomImplicitHydrogenValences(g)) == g
  {
    var r := SetAtomImplicitHydrogenValences(g, AtomImplicitHydrogenValences(g));
    forall k | k in Atoms(g)
      ensures Atoms(r)[k] == Atoms(g)[k]
    {
    }
    assert Atoms(r) == Atoms(g);
  }

  lemma SetAtomStereoParitiesGetters(g: Graph, d: map<AtomKey, Option<bool>>)
    ensures var r := SetAtomStereoParities(g, d);
      && AtomStereoParities(r) == AtomStereoParities(g) + Restrict(d, AtomKeys(g))
      && AtomSymbols(r) == AtomSymbols(g)
      && AtomImplicitHydrogenValences(r) == AtomImplicitHydrogenValences(g)
      && BondOrders(r) == BondOrders(g)
      && BondStereoParities(r) == BondStereoParities(g)
  {
  }

  lemma SetAtomStereoParitiesOwn(g: Graph)
    ensures SetAtomStereoParities(g, AtomStereoParities(g)) == g
  {
    var r := SetAtomStereoParities(g, AtomStereoParities(g));
    forall k | k in Atoms(g)
      ensures Atoms(r)[k] == Atoms(g)[k]
    {
    }
    assert Atoms(r) == Atoms(g);
  }

  lemma SetBondOrdersGetters(g: Graph, d: map<BondKey, int>)
    ensures var r := SetBondOrders(g, d);
      && BondOrders(r) == BondOrders(g) + Restrict(d, BondKeys(g))
      && BondStereoParities(r) == BondStereoParities(g)
      && AtomSymbols(r) == AtomSymbols(g)
      && AtomImplicitHydrogenValences(r) == AtomImplicitHydrogenValences(g)
      && AtomStereoParities(r) == AtomStereoParities(g)
  {
  }

  lemma SetBondOrdersOwn(g: Graph)
    ensures SetBondOrders(g, BondOrders(g)) == g
  {
    var r := SetBondOrders(g, BondOrders(g));
    forall k | k in Bonds(g)
      ensures Bonds(r)[k] == Bonds(g)[k]
    {
    }
    assert Bonds(r) == Bonds(g);
  }

  lemma SetBondStereoParitiesGetters(g: Graph, d: map<BondKey, Option<bool>>)
    ensures var r := SetBondStereoParities(g, d);
      && BondStereoParities(r) == BondStereoParities(g) + Restrict(d, BondKeys(g))
      && BondOrders(r) == BondOrders(g)
      && AtomSymbols(r) == AtomSymbols(g)
      && AtomImplicitHydrogenValences(r) == AtomImplicitHydrogenValences(g)
      && AtomStereoParities(r) == AtomStereoParities(g)
  {
  }

  lemma SetBondStereoParitiesOwn(g: Graph)
    ensures SetBondStereoParities(g, BondStereoParities(g)) == g
  {
    var r := SetBondStereoParities(g, BondStereoParities(g));
    forall k | k in Bonds(g)
      ensures Bonds(r)[k] == Bonds(g)[k]
    {
    }
    assert Bonds(r) == Bonds(g);
  }

  // ---------------------------------------------------------------------
  // Relabelling
  // ---------------------------------------------------------------------

  /** The renaming `relabel` looks keys up in: the identity on the graph's
      atom keys, overridden by the given mapping. */
  function RenameMap(g: Graph, m: map<AtomKey, AtomKey>): (f: map<AtomKey, AtomKey>)
    ensures f.Keys == AtomKeys(g) + m.Keys
    ensures forall k :: k in f ==> f[k] == if k in m then m[k] else k
  {
    (map k | k in AtomKeys(g) :: k) + m
  }

  /** A bond key renamed endpoint by endpoint. */
  function RenameBond(f: map<AtomKey, AtomKey>, b: BondKey): (r: BondKey)
    requires b <= f.Keys
    ensures forall a :: a in b ==> f[a] in r
    ensures forall x :: x in r ==> exists a :: a in b && f[a] == x
  {
    set a | a in b :: f[a]
  }

  /** No two distinct keys of `keys` are renamed to the same key. */
  predicate InjectiveOn(f: map<AtomKey, AtomKey>, keys: set<AtomKey>)
    requires keys <= f.Keys
  {
    forall a, b :: a in keys && b in keys && a != b ==> f[a] != f[b]
  }

  /** A renaming that is injective on the atoms is injective on the bond keys
      made of those atoms. */
  lemma RenameBondInjective(f: map<AtomKey, AtomKey>, keys: set<AtomKey>, b1: BondKey, b2: BondKey)
    requires keys <= f.Keys && InjectiveOn(f, keys)
    requires b1 <= keys && b2 <= keys
    requires RenameBond(f, b1) == RenameBond(f, b2)
    ensures b1 == b2
  {
    forall a | a in b1 ensures a in b2 {
      assert f[a] in RenameBond(f, b2);
      var a2 :| a2 in b2 && f[a2] == f[a];
    }
    forall a | a in b2 ensures a in b1 {
      assert f[a] in RenameBond(f, b1);
      var a1 :| a1 in b1 && f[a1] == f[a];
    }
  }

  /** The atom dictionary with every key renamed through `f`. */
  function RenameAtomKeys(f: map<AtomKey, AtomKey>, atomDct: AtomDict): (r: AtomDict)
    requires atomDct.Keys <= f.Keys && InjectiveOn(f, atomDct.Keys)
  {
    map k | k in atomDct :: f[k] := atomDct[k]
  }

  /** The bond dictionary with every bond key renamed endpoint by endpoint. */
  function RenameBondKeys(f: map<AtomKey, AtomKey>, keys: set<AtomKey>, bondDct: BondDict): (r: BondDict)
    requires keys <= f.Keys && InjectiveOn(f, keys)
    requires forall b :: b in bondDct ==> b <= keys
    ensures forall b :: b in bondDct ==> RenameBond(f, b) in r && r[RenameBond(f, b)] == bondDct[b]
    ensures forall b :: b in r ==> exists b0 :: b0 in bondDct && b0 <= f.Keys && RenameBond(f, b0) == b
  {
    assert forall b1, b2 :: b1 in bondDct && b2 in bondDct && RenameBond(f, b1) == RenameBond(f, b2) ==> b1 == b2 by {
      forall b1, b2 | b1 in bondDct && b2 in bondDct && RenameBond(f, b1) == RenameBond(f, b2)
        ensures b1 == b2
      {
        RenameBondInjective(f, keys, b1, b2);
      }
    }
    map b | b in bondDct :: RenameBond(f, b) := bondDct[b]
  }

  /** Renames the atom keys of `g`: a key the mapping names goes to its image,
      every other key to itself; atom and bond property tuples are carried
      over unchanged. Fails when the mapping names a key that is not an atom,
      and when a bond has an endpoint that is not an atom (its lookup in the
      renaming raises). */
  function Relabel(g: Graph, m: map<AtomKey, AtomKey>): (r: Result<Graph, GraphError>)
    requires InjectiveOn(RenameMap(g, m), AtomKeys(g))
    ensures r.Success? <==> m.Keys <= AtomKeys(g) && BondsWithinAtoms(g)
    ensures !(m.Keys <= AtomKeys(g)) ==> r == Failure(MappingKeysNotAtoms)
    ensures m.Keys <= AtomKeys(g) && !BondsWithinAtoms(g) ==> r == Failure(BondAtomNotRelabelled)
  {
    if !(m.Keys <= AtomKeys(g)) then
      Failure(MappingKeysNotAtoms)
    else if !BondsWithinAtoms(g) then
      Failure(BondAtomNotRelabelled)
    else
      var f := RenameMap(g, m);
      Success(FromAtomsAndBonds(RenameAtomKeys(f, Atoms(g)), RenameBondKeys(f, AtomKeys(g), Bonds(g))))
  }

  /** What a successful relabelling holds: every atom sits under its renamed
      key with its property tuple unchanged, and there is no other atom. */
  lemma RelabelAtoms(g: Graph, m: map<AtomKey, AtomKey>)
    requires InjectiveOn(RenameMap(g, m), AtomKeys(g))
    requires Relabel(g, m).Success?
    ensures var f, r := RenameMap(g, m), Relabel(g, m).value;
      && (forall k :: k in Atoms(g) ==> f[k] in Atoms(r) && Atoms(r)[f[k]] == Atoms(g)[k])
      && (forall k :: k in Atoms(r) ==> exists k0 :: k0 in Atoms(g) && f[k0] == k)
  {
    var f, r := RenameMap(g, m), Relabel(g, m).value;
    forall k | k in Atoms(g) ensures f[k] in Atoms(r) && Atoms(r)[f[k]] == Atoms(g)[k] {
    }
  }

  /** What a successful relabelling holds: every bond {a, b} sits under the
      key {f(a), f(b)} with its property tuple unchanged, and there is no
      other bond. */
  lemma RelabelBonds(g: Graph, m: map<AtomKey, AtomKey>)
    requires InjectiveOn(RenameMap(g, m), AtomKeys(g))
    requires Relabel(g, m).Success?
    ensures var f, r := RenameMap(g, m), Relabel(g, m).value;
      && (forall b :: b in Bonds(g) ==>
            b <= f.Keys && RenameBond(f, b) in Bonds(r) && Bonds(r)[RenameBond(f, b)] == Bonds(g)[b])
      && (forall b :: b in Bonds(r) ==> exists b0 :: b0 in Bonds(g) && b0 <= f.Keys && RenameBond(f, b0) == b)
  {
  }

  // ---------------------------------------------------------------------
  // The key shift of the text form
  // ---------------------------------------------------------------------

  /** The mapping that moves every atom key of `g` by `delta`. */
  function ShiftMap(g: Graph, delta: int): (m: map<AtomKey, AtomKey>)
    ensures m.Keys == AtomKeys(g)
    ensures forall k :: k in m ==> m[k] == k + delta
  {
    map k | k in AtomKeys(g) :: k + delta
  }

  /** `g` relabelled by k |-> k + delta. */
  function ShiftKeys(g: Graph, delta: int): (r: Result<Graph, GraphError>)
    ensures r.Success? <==> BondsWithinAtoms(g)
  {
    assert InjectiveOn(RenameMap(g, ShiftMap(g, delta)), AtomKeys(g));
    Relabel(g, ShiftMap(g, delta))
  }

  /** The shift to one-indexing that writing the graph as text applies. */
  function ToOneIndexed(g: Graph): (r: Result<Graph, GraphError>)
    ensures r.Success? <==> BondsWithinAtoms(g)
  {
    ShiftKeys(g, 1)
  }

  /** The shift back to zero-indexing that reading the graph from text applies. */
  function ToZeroIndexed(g: Graph): (r: Result<Graph, GraphError>)
    ensures r.Success? <==> BondsWithinAtoms(g)
  {
    ShiftKeys(g, -1)
  }

  /** The keys of `s`, each moved by `delta`. */
  function ShiftSet(s: set<AtomKey>, delta: int): set<AtomKey>
  {
    set a | a in s :: a + delta
  }

  /** The keys of `s`, each moved back by `delta`. */
  function UnshiftSet(s: set<AtomKey>, delta: int): set<AtomKey>
  {
    set a | a in s :: a - delta
  }

  lemma ShiftSetMember(s: set<AtomKey>, delta: int, x: AtomKey)
    ensures x in ShiftSet(s, delta) <==> x - delta in s
  {
    if x in ShiftSet(s, delta) {
      var a :| a in s && a + delta == x;
    }
    if x - delta in s {
      assert (x - delta) + delta in ShiftSet(s, delta);
    }
  }

  lemma UnshiftSetMember(s: set<AtomKey>, delta: int, x: AtomKey)
    ensures x in UnshiftSet(s, delta) <==> x + delta in s
  {
    if x in UnshiftSet(s, delta) {
      var a :| a in s && a - delta == x;
    }
    if x + delta in s {
      assert (x + delta) - delta in UnshiftSet(s, delta);
    }
  }

  lemma UnshiftShiftSet(s: set<AtomKey>, delta: int)
    ensures UnshiftSet(ShiftSet(s, delta), delta) == s
    ensures ShiftSet(UnshiftSet(s, delta), delta) == s
  {
    forall x ensures x in UnshiftSet(ShiftSet(s, delta), delta) <==> x in s {
      UnshiftSetMember(ShiftSet(s, delta), delta, x);
      ShiftSetMember(s, delta, x + delta);
    }
    forall x ensures x in ShiftSet(UnshiftSet(s, delta), delta) <==> x in s {
      ShiftSetMember(UnshiftSet(s, delta), delta, x);
      UnshiftSetMember(s, delta, x - delta);
    }
  }

  lemma UnshiftTwice(s: set<AtomKey>, delta: int, back: int)
    requires delta + back == 0
    ensures UnshiftSet(UnshiftSet(s, back), delta) == s
  {
    forall x ensures x in UnshiftSet(UnshiftSet(s, back), delta) <==> x in s {
      UnshiftSetMember(UnshiftSet(s, back), delta, x);
      UnshiftSetMember(s, back, x + delta);
    }
  }

  /** The bond keys of `keys`, each with both endpoints moved by `delta`. */
  function ShiftBondSet(keys: set<BondKey>, delta: int): set<BondKey>
  {
    set b | b in keys :: ShiftSet(b, delta)
  }

  lemma ShiftBondSetMember(keys: set<BondKey>, delta: int, b: BondKey)
    ensures b in ShiftBondSet(keys, delta) <==> UnshiftSet(b, delta) in keys
  {
    if b in ShiftBondSet(keys, delta) {
      var b0 :| b0 in keys && ShiftSet(b0, delta) == b;
      UnshiftShiftSet(b0, delta);
    }
    if UnshiftSet(b, delta) in keys {
      UnshiftShiftSet(b, delta);
      assert ShiftSet(UnshiftSet(b, delta), delta) in ShiftBondSet(keys, delta);
    }
  }

  /** The atom dictionary with every key moved by `delta`. */
  function ShiftAtomDict(atomDct: AtomDict, delta: int): AtomDict
  {
    map k | k in ShiftSet(atomDct.Keys, delta) :: (ShiftSetMember(atomDct.Keys, delta, k); atomDct[k - delta])
  }

  /** The bond dictionary with every bond endpoint moved by `delta`. */
  function ShiftBondDict(bondDct: BondDict, delta: int): BondDict
  {
    map b | b in ShiftBondSet(bondDct.Keys, delta) ::
      (ShiftBondSetMember(bondDct.Keys, delta, b); bondDct[UnshiftSet(b, delta)])
  }

  /** The graph with every atom key and bond endpoint moved by `delta`. */
  function ShiftedGraph(g: Graph, delta: int): Graph
  {
    FromAtomsAndBonds(ShiftAtomDict(Atoms(g), delta), ShiftBondDict(Bonds(g), delta))
  }

  /** Key `k` of the shifted dictionary is key k - delta of the original. */
  lemma ShiftAtomDictAt(atomDct: AtomDict, delta: int, k: AtomKey)
    ensures k in ShiftAtomDict(atomDct, delta) <==> k - delta in atomDct
    ensures k in ShiftAtomDict(atomDct, delta) ==> ShiftAtomDict(atomDct, delta)[k] == atomDct[k - delta]
  {
    ShiftSetMember(atomDct.Keys, delta, k);
  }

  lemma ShiftAtomDictBack(atomDct: AtomDict, delta: int, back: int)
    requires delta + back == 0
    ensures ShiftAtomDict(ShiftAtomDict(atomDct, delta), back) == atomDct
  {
    var m1 := ShiftAtomDict(atomDct, delta);
    var m2 := ShiftAtomDict(m1, back);
    forall k ensures k in m2 <==> k in atomDct
      ensures k in m2 ==> m2[k] == atomDct[k]
    {
      var j := k - back;
      ShiftAtomDictAt(m1, back, k);
      ShiftAtomDictAt(atomDct, delta, j);
      assert j - delta == k;
    }
  }

  lemma ShiftBondDictBack(bondDct: BondDict, delta: int, back: int)
    requires delta + back == 0
    ensures ShiftBondDict(ShiftBondDict(bondDct, delta), back) == bondDct
  {
    var m1 := ShiftBondDict(bondDct, delta);
    var m2 := ShiftBondDict(m1, back);
    forall b ensures b in m2 <==> b in bondDct {
      ShiftBondSetMember(m1.Keys, back, b);
      ShiftBondSetMember(bondDct.Keys, delta, UnshiftSet(b, back));
      UnshiftTwice(b, delta, back);
    }
    forall b | b in m2 ensures m2[b] == bondDct[b] {
      UnshiftTwice(b, delta, back);
    }
  }

  lemma ShiftedGraphBack(g: Graph, delta: int, back: int)
    requires delta + back == 0
    ensures ShiftedGraph(ShiftedGraph(g, delta), back) == g
  {
    ShiftAtomDictBack(Atoms(g), delta, back);
    ShiftBondDictBack(Bonds(g), delta, back);
  }

  /** Moving every key keeps every bond endpoint an atom. */
  lemma ShiftedBondsWithinAtoms(g: Graph, delta: int)
    requires BondsWithinAtoms(g)
    ensures BondsWithinAtoms(ShiftedGraph(g, delta))
  {
    var g1 := ShiftedGraph(g, delta);
    forall b | b in Bonds(g1) ensures b <= AtomKeys(g1) {
      ShiftBondSetMember(Bonds(g).Keys, delta, b);
      forall x | x in b ensures x in Atoms(g1) {
        UnshiftSetMember(b, delta, x - delta);
        ShiftSetMember(Atoms(g).Keys, delta, x);
      }
    }
  }

  lemma RenamedAtomIsShifted(f: map<AtomKey, AtomKey>, atomDct: AtomDict, delta: int, k: AtomKey)
    requires atomDct.Keys <= f.Keys && InjectiveOn(f, atomDct.Keys)
    requires forall k :: k in atomDct ==> f[k] == k + delta
    requires k in RenameAtomKeys(f, atomDct)
    ensures k in ShiftAtomDict(atomDct, delta)
    ensures RenameAtomKeys(f, atomDct)[k] == ShiftAtomDict(atomDct, delta)[k]
  {
    var k0 :| k0 in atomDct && f[k0] == k;
    ShiftSetMember(atomDct.Keys, delta, k);
  }

  lemma ShiftedAtomIsRenamed(f: map<AtomKey, AtomKey>, atomDct: AtomDict, delta: int, k: AtomKey)
    requires atomDct.Keys <= f.Keys && InjectiveOn(f, atomDct.Keys)
    requires forall k :: k in atomDct ==> f[k] == k + delta
    requires k in ShiftAtomDict(atomDct, delta)
    ensures k in RenameAtomKeys(f, atomDct)
  {
    ShiftSetMember(atomDct.Keys, delta, k);
    assert f[k - delta] in RenameAtomKeys(f, atomDct);
  }

  /** Renaming atom keys by a map that adds `delta` moves every key by `delta`. */
  lemma RenameAtomKeysByShift(f: map<AtomKey, AtomKey>, atomDct: AtomDict, delta: int)
    requires atomDct.Keys <= f.Keys && InjectiveOn(f, atomDct.Keys)
    requires forall k :: k in atomDct ==> f[k] == k + delta
    ensures RenameAtomKeys(f, atomDct) == ShiftAtomDict(atomDct, delta)
  {
    var r1 := RenameAtomKeys(f, atomDct);
    var r2 := ShiftAtomDict(atomDct, delta);
    forall k | k in r1 ensures k in r2 && r1[k] == r2[k] {
      RenamedAtomIsShifted(f, atomDct, delta, k);
    }
    forall k | k in r2 ensures k in r1 {
      ShiftedAtomIsRenamed(f, atomDct, delta, k);
    }
    assert r1 == r2;
  }

  /** Renaming bond keys by a map that adds `delta` moves every endpoint by `delta`. */
  lemma RenameBondKeysByShift(f: map<AtomKey, AtomKey>, keys: set<AtomKey>, bondDct: BondDict, delta: int)
    requires keys <= f.Keys && InjectiveOn(f, keys)
    requires forall b :: b in bondDct ==> b <= keys
    requires forall k :: k in keys ==> f[k] == k + delta
    ensures RenameBondKeys(f, keys, bondDct) == ShiftBondDict(bondDct, delta)
  {
    var r1 := RenameBondKeys(f, keys, bondDct);
    var r2 := ShiftBondDict(bondDct, delta);
    forall b | b in bondDct ensures RenameBond(f, b) == ShiftSet(b, delta) {
    }
    forall b | b in r1 ensures b in r2 && r1[b] == r2[b] {
      var b0 :| b0 in bondDct && b0 <= f.Keys && RenameBond(f, b0) == b;
      UnshiftShiftSet(b0, delta);
      ShiftBondSetMember(bondDct.Keys, delta, b);
    }
    forall b | b in r2 ensures b in r1 {
      ShiftBondSetMember(bondDct.Keys, delta, b);
      UnshiftShiftSet(b, delta);
      assert RenameBond(f, UnshiftSet(b, delta)) == b;
    }
    assert r1 == r2;
  }

  /** Relabelling by the shift map moves every atom key and every bond
      endpoint by `delta`. */
  lemma ShiftKeysMoves(g: Graph, delta: int)
    requires BondsWithinAtoms(g)
    ensures ShiftKeys(g, delta) == Success(ShiftedGraph(g, delta))
  {
    var f := RenameMap(g, ShiftMap(g, delta));
    RenameAtomKeysByShift(f, Atoms(g), delta);
    RenameBondKeysByShift(f, AtomKeys(g), Bonds(g), delta);
  }

  /** Shifting every key by `delta` and then by `back` = -delta gives back
      the graph (all bond endpoints being atoms, so that neither relabelling
      fails). */
  lemma ShiftKeysRoundTrip(g: Graph, delta: int, back: int)
    requires BondsWithinAtoms(g)
    requires delta + back == 0
    ensures ShiftKeys(g, delta).Success?
    ensures ShiftKeys(ShiftKeys(g, delta).value, back) == Success(g)
  {
    ShiftKeysMoves(g, delta);
    ShiftedBondsWithinAtoms(g, delta);
    ShiftKeysMoves(ShiftedGraph(g, delta), back);
    ShiftedGraphBack(g, delta, back);
  }

  /** The key shift of writing the graph as text (every key up by one)
      followed by that of reading it back (every key down by one) gives back
      the graph. */
  lemma TextKeyShiftRoundTrip(g: Graph)
    requires BondsWithinAtoms(g)
    ensures ToOneIndexed(g).Success?
    ensures ToZeroIndexed(ToOneIndexed(g).value) == Success(g)
  {
    ShiftKeysRoundTrip(g, 1, -1);
  }

  /** Reading a graph's keys down to zero-indexing and writing them back up
      to one-indexing also gives back the graph. */
  lemma TextKeyShiftRoundTripBack(g: Graph)
    requires BondsWithinAtoms(g)
    ensures ToZeroIndexed(g).Success?
    ensures ToOneIndexed(ToZeroIndexed(g).value) == Success(g)
  {
    ShiftKeysRoundTrip(g, -1, 1);
  }
}
