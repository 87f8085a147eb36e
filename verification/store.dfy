/** The relational store shared by the web app and the offline scripts, as
    immutable values: one map per table, keyed by the table's primary key. */
module Store {
  import opened Wrappers
  import opened Text

  /** An INTEGER column that only ever holds 0 or 1 (`has_2d`, `has_3d`). */
  type Flag = x: int | 0 <= x <= 1

  function Max(a: Flag, b: Flag): (m: Flag)
    ensures m >= a && m >= b && (m == a || m == b)
  {
    if a >= b then a else b
  }

  /** A `structures` row. Paths are relative to the web app's static root. */
  datatype StructureRecord = StructureRecord(
    has2d: Flag,
    has3d: Flag,
    sdf2dPath: Option<string>,
    sdf3dPath: Option<string>,
    png2dPath: Option<string>)

  /** The row `INSERT ... VALUES (?, 0, 0, NULL, NULL, NULL)` creates; also what a
      LEFT JOIN reads (after `COALESCE(has_2d, 0)`) when no row exists. */
  const NoStructure := StructureRecord(0, 0, None, None, None)

  /** A `descriptors` row: the fifteen columns filled from the remote service.
      A `real` column stands for the decimal as reported, not for the double
      the column stores. */
  datatype DescriptorRecord = DescriptorRecord(
    molecularFormula: Option<string>,
    molecularWeight: Option<real>,
    xlogp: Option<real>,
    tpsa: Option<real>,
    hbd: Option<int>,
    hba: Option<int>,
    rotatableBonds: Option<int>,
    heavyAtomCount: Option<int>,
    complexity: Option<real>,
    charge: Option<int>,
    smiles: Option<string>,
    isomericSmiles: Option<string>,
    inchi: Option<string>,
    inchikey: Option<string>,
    iupacName: Option<string>)

  /** What a LEFT JOIN on `descriptors` reads when no row exists. */
  const NoDescriptors := DescriptorRecord(
    None, None, None, None, None, None, None, None, None, None,
    None, None, None, None, None)

  /** A `phytochemicals` row; `cid` is UNIQUE when present. */
  datatype Phytochemical = Phytochemical(name: string, cid: Option<int>)

  /** A `spices` row, keyed by its UNIQUE `spice_name`. */
  datatype Spice = Spice(id: int, botanicalName: Option<string>)

  datatype Db = Db(
    spices: map<string, Spice>,
    phytochemicals: map<int, Phytochemical>,
    links: set<(int, int)>,
    structures: map<int, StructureRecord>,
    descriptors: map<int, DescriptorRecord>)

  /** Python truthiness of a nullable TEXT value: neither NULL nor "". */
  predicate Truthy(s: Option<string>) {
    s.Some? && s.value != ""
  }

  /** Python truthiness of a nullable INTEGER `cid`: neither NULL nor 0. */
  predicate CidTruthy(cid: Option<int>) {
    cid.Some? && cid.value != 0
  }

  /** The stored paths the app writes for a compound, relative to the static root. */
  function Sdf2dPath(cid: int): string {
    "structures/sdf2d/CID_" + IntToString(cid) + ".sdf"
  }

  function Sdf3dPath(cid: int): string {
    "structures/sdf3d/CID_" + IntToString(cid) + ".sdf"
  }

  function PngPath(cid: int): string {
    "structures/png/CID_" + IntToString(cid) + ".png"
  }

  /** `a` may become `b` under the "fill, never clear" lifecycle: no flag drops
      and no present path disappears. */
  predicate StructureGrows(a: StructureRecord, b: StructureRecord) {
    && a.has2d <= b.has2d
    && a.has3d <= b.has3d
    && (a.sdf2dPath.Some? ==> b.sdf2dPath.Some?)
    && (a.sdf3dPath.Some? ==> b.sdf3dPath.Some?)
    && (a.png2dPath.Some? ==> b.png2dPath.Some?)
  }

  /** Every structure row survives from `a` to `b` and only grows. */
  predicate StructuresGrow(a: map<int, StructureRecord>, b: map<int, StructureRecord>) {
    forall p :: p in a ==> p in b && StructureGrows(a[p], b[p])
  }
}
