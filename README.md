# Molecular graphs and heuristic z-matrices

A model of two pieces of the automol molecular-graph library.

- **The graph base.** A molecular graph is a pair of dictionaries. The atom
  dictionary maps integer atom keys to (symbol, implicit hydrogen valence,
  stereo parity). The bond dictionary maps two-atom key sets to (order,
  stereo parity). The model covers:
  - the accessors for the two halves and their key sets;
  - the five property getters and the four property setters;
  - relabelling of atom keys;
  - the shift to one-indexed keys that writing a graph as text applies, and
    the shift back that reading it applies.
- **Heuristic z-matrix construction.** This covers:
  - the heuristic bond length between two atoms: X-H or heavy-atom;
  - the heuristic bond angle at a centre of given hybridization;
  - the bond angle that closes a circular arc of atoms;
  - the two builders that lay out a chain and a ring (or arc) of atoms as
    z-matrix rows. Each row refers back to the rows of the previous one, two
    and three atoms.

The model is split into three modules:
- `wrappers.dfy`: `Option` stands for Python's `None`, and `Result` for a
  raised exception.
- `graph_base.dfy`: the graph base, as pure functions over maps.
- `geom.dfy`: the geometry code.

The geometry code reads three things from a graph, which it receives as a
`GraphInfo` value:
- the atom symbols, which `InfoOf` takes from the graph itself;
- the neighbour keys of each atom;
- the dominant hybridization of each atom.

The two builders are imperative methods. Each has the source's loop, key
window and key-to-row dictionary. Each is proved equal to a specification
function, `ChainZMatrixOf` or `RingZMatrixOf`, that builds the rows one
position at a time. Lemmas then state what those z-matrices contain:
- when they exist;
- which error a failure carries;
- the symbols, references and values of every row;
- that with distinct keys the rows are 0, 1, 2, ... and only ever refer to
  earlier rows.

A key that occurs twice is modelled as the source handles it. The row
dictionary keeps the last placement. Because the current key is written
before its references are looked up, a repeated key can make a row refer
to itself (`BackRowIsSelfIffRepeated`).

## Model

| member | source | states |
|---|---|---|
| GraphBase.AtomsBondsRoundTrip | automol/graph/_graph_base.py:20-31 | The atom and bond dictionaries are the two halves of the graph, and pairing them gives the graph back |
| GraphBase.FromAtomsAndBonds | automol/graph/_graph_base.py:86 | A graph built from an atom and a bond dictionary gives each of them back through its accessor |
| GraphBase.Atoms | automol/graph/_graph_base.py:20-24 | No contract of its own: the first component, which with `Bonds` rebuilds the graph (`AtomsBondsRoundTrip`) |
| GraphBase.Bonds | automol/graph/_graph_base.py:27-31 | No contract of its own: the second component, which with `Atoms` rebuilds the graph (`AtomsBondsRoundTrip`) |
| GraphBase.AtomKeys | automol/graph/_graph_base.py:34-37 | The atom keys are exactly the keys of the atom dictionary |
| GraphBase.BondKeys | automol/graph/_graph_base.py:40-43 | The bond keys are exactly the keys of the bond dictionary |
| GraphBase.ByKeyByPosition | automol/graph/_graph_base.py:49 | Projecting a dictionary of property tuples onto the given keys and one position gives exactly those keys, each mapped to that position of its tuple |
| GraphBase.AtomSymbols | automol/graph/_graph_base.py:46-49 | Has one entry per atom key: that atom's symbol |
| GraphBase.AtomImplicitHydrogenValences | automol/graph/_graph_base.py:52-56 | Has one entry per atom key: that atom's implicit hydrogen valence |
| GraphBase.AtomStereoParities | automol/graph/_graph_base.py:59-63 | Has one entry per atom key: that atom's stereo parity |
| GraphBase.BondOrders | automol/graph/_graph_base.py:66-69 | Has one entry per bond key: that bond's order |
| GraphBase.BondStereoParities | automol/graph/_graph_base.py:72-76 | Has one entry per bond key: that bond's stereo parity |
| GraphBase.SetByKeyByPosition | automol/graph/_graph_base.py:83-84 | Keeps the key set; a key that the value dictionary names gets its tuple with that one position replaced; every other tuple is unchanged |
| GraphBase.SetAtomImplicitHydrogenValences | automol/graph/_graph_base.py:80-86 | Bonds and atom keys are unchanged; a named atom gets the new valence and keeps its symbol and parity; other atoms are unchanged |
| GraphBase.SetAtomStereoParities | automol/graph/_graph_base.py:89-94 | Bonds and atom keys are unchanged; a named atom gets the new parity and keeps its other properties; other atoms are unchanged |
| GraphBase.SetBondOrders | automol/graph/_graph_base.py:97-102 | Atoms and bond keys are unchanged; a named bond gets the new order and keeps its parity; other bonds are unchanged |
| GraphBase.SetBondStereoParities | automol/graph/_graph_base.py:105-110 | Atoms and bond keys are unchanged; a named bond gets the new parity and keeps its order; other bonds are unchanged |
| GraphBase.SetAtomImplicitHydrogenValencesGetters | automol/graph/_graph_base.py:52-86 | Setting then getting gives the set values on the graph's atoms and the old values elsewhere; the other two atom getters and the bond getters are unaffected |
| GraphBase.SetAtomImplicitHydrogenValencesOwn | automol/graph/_graph_base.py:52-86 | Setting the graph's own valences gives the same graph back |
| GraphBase.SetAtomStereoParitiesGetters | automol/graph/_graph_base.py:59-94 | Setting then getting atom parities gives the set values on the graph's atoms and the old values elsewhere; the other getters are unaffected |
| GraphBase.SetAtomStereoParitiesOwn | automol/graph/_graph_base.py:59-94 | Setting the graph's own atom parities gives the same graph back |
| GraphBase.SetBondOrdersGetters | automol/graph/_graph_base.py:66-102 | Setting then getting bond orders gives the set values on the graph's bonds and the old values elsewhere; the other getters are unaffected |
| GraphBase.SetBondOrdersOwn | automol/graph/_graph_base.py:66-102 | Setting the graph's own bond orders gives the same graph back |
| GraphBase.SetBondStereoParitiesGetters | automol/graph/_graph_base.py:72-110 | Setting then getting bond parities gives the set values on the graph's bonds and the old values elsewhere; the other getters are unaffected |
| GraphBase.SetBondStereoParitiesOwn | automol/graph/_graph_base.py:72-110 | Setting the graph's own bond parities gives the same graph back |
| GraphBase.RenameMap | automol/graph/_graph_base.py:119-122 | The renaming covers every atom key and every mapped key; a mapped key goes to its image and any other key to itself |
| GraphBase.RenameBondInjective | automol/graph/_graph_base.py:124-125 | When the renaming is injective on the atoms, two bonds over those atoms with the same renamed key are the same bond |
| GraphBase.RenameBond | automol/graph/_graph_base.py:124-125 | The renamed bond key is exactly the set of the images of its endpoints; with an injective renaming, distinct bonds stay distinct (`RenameBondInjective`) |
| GraphBase.RenameAtomKeys | automol/graph/_graph_base.py:127 | No contract of its own: every atom moves to its renamed key with its tuple and no other atom appears, as `RelabelAtoms` states |
| GraphBase.RenameBondKeys | automol/graph/_graph_base.py:128 | Every bond appears under its renamed key with its property tuple, and every key of the result is the renaming of some bond |
| GraphBase.Relabel | automol/graph/_graph_base.py:113-129 | Succeeds exactly when the mapping's keys are atoms and every bond endpoint is an atom; mapping a non-atom fails with the assertion error, and otherwise a bond endpoint that is not an atom fails with the lookup's KeyError |
| GraphBase.RelabelAtoms | automol/graph/_graph_base.py:119-127 | After relabelling, every atom sits under its renamed key with its properties unchanged, and there are no other atoms |
| GraphBase.RelabelBonds | automol/graph/_graph_base.py:124-128 | After relabelling, every bond {a, b} sits under {f(a), f(b)} with its properties unchanged, and there are no other bonds |
| GraphBase.ShiftMap | automol/graph/_graph_base.py:137 | The shift mapping covers exactly the atom keys and moves each by the given offset |
| GraphBase.ShiftKeys | automol/graph/_graph_base.py:137-138 | Shifting the keys succeeds exactly when every bond endpoint is an atom |
| GraphBase.ToOneIndexed | automol/graph/_graph_base.py:136-138 | The shift that writing applies succeeds exactly when every bond endpoint is an atom |
| GraphBase.ToZeroIndexed | automol/graph/_graph_base.py:182-184 | The shift that reading applies succeeds exactly when every bond endpoint is an atom |
| GraphBase.ShiftKeysMoves | automol/graph/_graph_base.py:137-138 | Relabelling by the shift moves every atom key and every bond endpoint by the offset and keeps every property |
| GraphBase.ShiftedBondsWithinAtoms | automol/graph/_graph_base.py:137-138 | A shift keeps every bond endpoint an atom |
| GraphBase.ShiftedGraphBack | automol/graph/_graph_base.py:137-184 | Shifting by an offset and then by its negation gives the graph back |
| GraphBase.ShiftKeysRoundTrip | automol/graph/_graph_base.py:137-184 | For a graph whose bond endpoints are atoms, relabelling by +d and then by -d succeeds and returns the original graph |
| GraphBase.TextKeyShiftRoundTrip | automol/graph/_graph_base.py:137-184 | The zero-indexing shift of reading undoes the one-indexing shift of writing |
| GraphBase.TextKeyShiftRoundTripBack | automol/graph/_graph_base.py:137-184 | The one-indexing shift undoes the zero-indexing shift |
| Geom.InfoOf | automol/graph/_geom2.py:143 | The symbols the geometry code reads are exactly the graph's atom symbols |
| Geom.HeuristicBondDistance | automol/graph/_geom2.py:34-49 | Succeeds exactly when (under the check) key1 neighbours key2 and both atoms have symbols; key2 missing from the neighbour map is its KeyError, a failed neighbour check the assertion error, and then a missing symbol the KeyError of key1, else of key2; the result is the X-H length exactly when either atom is a hydrogen, and the heavy-atom length otherwise |
| Geom.IdealAngle | automol/graph/_geom2.py:60-66 | There is an angle exactly for hybridizations 3, 2 and 1 |
| Geom.IsHydrogen | automol/graph/_geom2.py:44 | No contract of its own: atomic number 1 as the symbol "H"; its use is the X-H clause of `HeuristicBondDistance` |
| Geom.HeuristicBondAngle | automol/graph/_geom2.py:52-68 | Succeeds exactly when (under the check) both outer atoms neighbour the centre and the centre's hybridization is 3, 2 or 1; a centre without neighbours or hybridization fails with its KeyError, an outer atom that is not a neighbour with the assertion error, any other hybridization as unsupported; the result is that hybridization's ideal angle |
| Geom.IdealAngleOrder | automol/graph/_geom2.py:22-24 | sp3, sp2 and sp give 109.4712, 120 and 180 degrees; fewer hybrid orbitals give a strictly wider angle, and none is wider than linear |
| Geom.HeuristicBondDistanceSymmetric | automol/graph/_geom2.py:40-47 | Without the check, the distance does not depend on which end of the bond comes first |
| Geom.HeuristicBondAngleCentreOnly | automol/graph/_geom2.py:58-68 | Without the check, the angle depends on the centre atom only |
| Geom.RingArcBondAngle | automol/graph/_geom2.py:123-135 | Ends farther apart than the straight bonds reach give 180 degrees; otherwise it succeeds exactly when num is not 1 and the solve converges; num = 1 is a division by zero, and a solve that does not converge is the non-convergence error |
| Geom.SolvedArcAngleRecoversTheta | automol/graph/_geom2.py:133 | A solved angle's deficit from linear, times num - 1, is the subtended angle theta |
| Geom.SingleAtomArcIsStraight | automol/graph/_geom2.py:123-124 | A one-atom arc with positive end distance is straight whatever the solver |
| Geom.ArcAtStraightLengthIsSolved | automol/graph/_geom2.py:123-129 | The shortcut is strict: ends exactly as far apart as the straight bonds reach still go to the solver, whose non-convergence surfaces |
| Geom.SolvedArcAngleBounds | automol/graph/_geom2.py:104-109 | A subtended angle strictly between 0 and 360 degrees gives a bond angle below 180 and above 180 - 360 / (num - 1) |
| Geom.LastIndex | automol/graph/_geom2.py:151-152 | The row the dictionary keeps for a placed key is a position that holds that key |
| Geom.LastIndexIsLast | automol/graph/_geom2.py:151-152 | No later position holds the key: a later placement overwrites an earlier one |
| Geom.LastIndexSnoc | automol/graph/_geom2.py:152 | Placing one more key gives it the newest row and leaves every other key's row unchanged |
| Geom.LastIndexOfDistinct | automol/graph/_geom2.py:152 | With distinct keys, each key's row is its own position |
| Geom.PlaceKey | automol/graph/_geom2.py:152 | Writing the current key's row keeps the dictionary equal to the last placements of the keys so far |
| Geom.BackRow | automol/graph/_geom2.py:154-163 | A reference one, two or three keys back exists exactly when that many keys precede the current one, and names a row no later than the current one |
| Geom.BackRowIsSelfIffRepeated | automol/graph/_geom2.py:152-163 | A back reference names a row holding the earlier key, at or after that key's own position; it is the current row exactly when the current key repeats the earlier key |
| Geom.BackRowOfDistinct | automol/graph/_geom2.py:154-163 | With distinct keys the references are the previous one, two and three rows |
| Geom.DistinctBackRows | automol/graph/_geom2.py:154-163 | With distinct keys, a row built on the back references refers exactly to the previous one, two and three rows |
| Geom.Lookup | automol/graph/_geom2.py:166 | A symbol lookup succeeds exactly when the key is in the dictionary, gives its value, and otherwise fails with the KeyError naming the key |
| Geom.ChainRow | automol/graph/_geom2.py:154-168 | No contract of its own: one iteration of the chain loop, whose meaning `ChainRowShape` and `ChainRowSucceedsIff` state |
| Geom.RingRow | automol/graph/_geom2.py:251-262 | No contract of its own: one iteration of the ring loop, whose meaning `RingRowShape` states |
| Geom.ChainRowShape | automol/graph/_geom2.py:151-168 | A built chain row has its key's symbol, the three back references, the heuristic bond length to the previous key from row 1 on, the previous key's ideal angle from row 2 on, and a trans dihedral from row 3 on |
| Geom.ChainRowSucceedsIff | automol/graph/_geom2.py:154-166 | A chain row can be built exactly when its key has a symbol and neighbours the previous key (which has a symbol), and the previous key neighbours both of its chain neighbours and has a supported hybridization |
| Geom.ChainRowsSucceedIffBuildable | automol/graph/_geom2.py:151-171 | Every chain row can be built exactly when consecutive keys are bonded, every key has a symbol and every inner key has a supported hybridization |
| Geom.RingRowShape | automol/graph/_geom2.py:244-262 | A ring row fails only for a key without a symbol; otherwise it has the back references and the uniform bond distance, bond angle and cis dihedral |
| Geom.RingAndChainShareReferences | automol/graph/_geom2.py:151-168 | The same keys laid out as a ring or as a chain get the same symbols and references on every row, and a row a chain can build a ring can build too |
| Geom.DistinctKeysReferenceEarlierRows | automol/graph/_geom2.py:154-163 | With distinct keys, rows built on back references refer to earlier rows only: none on row 0, one on row 1, two on row 2, three from then on |
| Geom.KeyRows | automol/graph/_geom2.py:173 | One reported row per key; `KeyRowsHoldTheirKeys` states which |
| Geom.KeyRowsHoldTheirKeys | automol/graph/_geom2.py:173 | Each key's reported row holds that key and is at or after its position; with distinct keys it is its position |
| Geom.BuildRows | automol/graph/_geom2.py:151-171 | The rows of the loop, stopping at the first that raises: a finished build has one row per position, the last being the last position's row |
| Geom.BuildRowsByRow | automol/graph/_geom2.py:151-171 | The loop produces all rows exactly when every row can be built, and then they are those rows in order |
| Geom.BuildRowsFirstFailure | automol/graph/_geom2.py:151-171 | When the loop fails, its error is that of the first row that cannot be built |
| Geom.BuildRowsStep | automol/graph/_geom2.py:151-171 | One more iteration appends the row it builds, and a failing iteration is the failure of the whole loop |
| Geom.ChainZMatrixOf | automol/graph/_geom2.py:138-174 | No contract of its own: the chain z-matrix and key rows position by position, specifying `ChainZMatrix`; `ChainZMatrixOfRows` and `ChainZMatrixOfDistinct` state its content |
| Geom.ChainZMatrixOfRows | automol/graph/_geom2.py:138-174 | A chain z-matrix exists exactly when the chain is buildable; its rows are the chain rows in order, each key's reported row holds that key, and otherwise the error is that of the first failing row |
| Geom.ChainZMatrixOfDistinct | automol/graph/_geom2.py:151-174 | With distinct keys, the reported rows are 0, 1, 2, ..., row i refers exactly to rows i - 1, i - 2 and i - 3 as far as they exist, and so only to earlier rows |
| Geom.ChainZMatrixOfGraph | automol/graph/_geom2.py:143-168 | Built from a graph, every chain key is an atom of the graph and its row carries the graph's own symbol for it |
| Geom.RingZMatrixOf | automol/graph/_geom2.py:222-268 | No contract of its own: the arc angle and then the ring z-matrix and key rows position by position, specifying `RingZMatrix`; `RingZMatrixOfRows` states its content |
| Geom.RingRowsBuilt | automol/graph/_geom2.py:248-262 | Ring rows are built exactly when every key has a symbol, with the error naming the first key that has none; each built row is that position's ring row (symbol, back references, bond distance, bond angle, cis dihedral) |
| Geom.RingZMatrixOfRows | automol/graph/_geom2.py:222-268 | A failure to close the arc is the result; otherwise a ring z-matrix exists exactly when every key has a symbol; each row is that position's ring row with the arc's bond angle, carrying the uniform values; with distinct keys the key rows are 0, 1, 2, ... and rows refer to earlier rows only |
| Geom.RingZMatrixOfDistinct | automol/graph/_geom2.py:248-262 | With distinct keys, row i of a ring z-matrix refers exactly to rows i - 1, i - 2 and i - 3 as far as they exist |
| Geom.ChainZMatrix | automol/graph/_geom2.py:138-174 | The loop over the chain keys, with its key window and row dictionary, returns exactly the chain z-matrix and key rows (or the first error) |
| Geom.RingZMatrix | automol/graph/_geom2.py:222-268 | The arc angle is found first, then the loop over the ring keys returns exactly the ring z-matrix and key rows (or the first error) |

## Left out

- The numeric root search of `ring_arc_bond_angle` (scipy's bracketed brentq on a sine ratio) is a parameter `solve`. It returns the subtended angle in degrees, or None when it does not converge. Its own exceptions are folded into that None: a zero end distance dividing the bond distance, and a bracket without a sign change. So they surface as `NonConvergence`, not as the exception the library raises.
- Floating point is modelled as exact reals. The radian-to-degree conversion belongs to the solver parameter.
- `ring_system_zmatrix` is debugging code that prints and calls z-matrix joins, distances and angles. Those z-matrix operations are not part of this model. The same goes for the `__main__` blocks and `RIT_ANG`, which nothing uses.
- `automol.zmat.add_atom` is modelled as appending a row, and `automol.zmat.count` as the number of rows. The z-matrix module is not part of this model.
- The neighbour keys and dominant hybridizations are computed in other modules (`atom_neighbor_keys`, `resonance_dominant_atom_hybridizations`). The geometry functions therefore take them as input maps.
- `pt.to_Z(symbol) == 1` is modelled as the symbol being "H". The periodic table is not part of this model.
- The default arguments of `ring_arc_bond_angle` and `ring_zmatrix` (both distances equal to the heavy-atom bond length) are explicit parameters.
- The text form's YAML writing and parsing (sorting, property names, "a-b" bond keys) is left out. Only the key shifts that `string` and `from_string` apply are modelled, together with their round trip. The text itself carries only keys that are not negative after the shift: a bond "-1-0" does not split back into two integers.
- `mdict.set_by_key_by_position` is not part of this model. The setters update only keys the graph has, and ignore any other key in the value dictionary.
- `_create.from_atoms_and_bonds` is modelled as pairing the two dictionaries, without whatever validation it performs.
- GraphBase.Relabel: requires the renaming to be injective on the atom keys. When two atoms are renamed to the same key, which one survives depends on dictionary iteration order, and a map cannot express that.
