/** The web app's on-demand enrichment: structure files and descriptors are
    fetched from the compound service the first time a phytochemical page is
    viewed without them, and recorded in the store. */
module Enrichment {
  import opened Wrappers
  import opened Text
  import opened Store
  import opened Remote
  import opened DrugLikeness

  // ---------------------------------------------------------------------------
  // download_file
  // ---------------------------------------------------------------------------

  /** The default retry budget of the downloader. */
  const Retries := 3

  /** A response the downloader accepts: at least 100 bytes. Empty bodies and
      the short error pages the service sometimes sends are rejected. */
  predicate Valid(a: Attempt) {
    a.Response? && |a.body| >= 100
  }

  /** The destination exists and is non-empty. */
  predicate Present(files: Files, dest: string) {
    dest in files && |files[dest]| > 0
  }

  /** The returned flag, the files afterwards, the number of the last attempt
      made (0 when none was), and the backoff slept after each failed attempt. */
  datatype Download = Download(ok: bool, files: Files, attempts: nat, backoffs: seq<real>)

  /** The `k`-th backoff follows attempt `first + k` and lasts `0.8 * attempt` seconds. */
  predicate Backoffs(b: seq<real>, first: nat) {
    forall k :: 0 <= k < |b| ==> b[k] == 0.8 * ((first + k) as real)
  }

  /** Attempts `n`, `n + 1`, ... up to `retries`, stopping at the first valid one. */
  function AttemptFrom(files: Files, dest: string, tries: Attempts, n: nat, retries: int): (r: Download)
    requires n >= 1
    ensures r.ok <==> exists i :: n <= i <= retries && Valid(tries(i))
    ensures r.ok ==>
      && n <= r.attempts <= retries
      && Valid(tries(r.attempts))
      && (forall i :: n <= i < r.attempts ==> !Valid(tries(i)))
      && r.files == files[dest := tries(r.attempts).body]
      && |r.backoffs| == r.attempts - n
    ensures !r.ok ==>
      && r.files == files
      && r.attempts == (if retries >= n then retries else n - 1)
      && |r.backoffs| == r.attempts - n + 1
    ensures Backoffs(r.backoffs, n)
    decreases retries - n + 1
  {
    if n > retries then Download(false, files, n - 1, [])
    else if Valid(tries(n)) then Download(true, files[dest := tries(n).body], n, [])
    else
      var rest := AttemptFrom(files, dest, tries, n + 1, retries);
      rest.(backoffs := [0.8 * (n as real)] + rest.backoffs)
  }

  /** Fetch into `dest` unless a non-empty file is already there. Every kind of
      failure is caught and retried alike, and the file is written only by the
      successful attempt. */
  function DownloadFile(files: Files, dest: string, tries: Attempts, retries: int): (r: Download)
    ensures Present(files, dest) ==> r == Download(true, files, 0, [])
    ensures !Present(files, dest) ==>
      && (r.ok <==> exists i :: 1 <= i <= retries && Valid(tries(i)))
      && |r.backoffs| == (if r.ok then r.attempts - 1 else r.attempts)
    ensures !Present(files, dest) && r.ok ==>
      && 1 <= r.attempts <= retries
      && Valid(tries(r.attempts))
      && (forall i :: 1 <= i < r.attempts ==> !Valid(tries(i)))
      && r.files == files[dest := tries(r.attempts).body]
    ensures !r.ok ==> r.files == files && r.attempts == (if retries >= 1 then retries else 0)
    ensures Backoffs(r.backoffs, 1)
    ensures r.ok <==> Present(r.files, dest)
  {
    if Present(files, dest) then Download(true, files, 0, [])
    else AttemptFrom(files, dest, tries, 1, retries)
  }

  /** Two rejected attempts, then a valid one: success on the third attempt after
      backoffs of 0.8 and 1.6 seconds. */
  lemma DownloadAfterTwoFailures(files: Files, dest: string, tries: Attempts)
    requires !Present(files, dest)
    requires !Valid(tries(1)) && !Valid(tries(2)) && Valid(tries(3))
    ensures var r := DownloadFile(files, dest, tries, Retries);
      r.ok && r.attempts == 3 && r.backoffs == [0.8, 1.6] && r.files[dest] == tries(3).body
  {
    var r := DownloadFile(files, dest, tries, Retries);
    assert Valid(tries(3));
    assert r.attempts == 3;
    assert r.backoffs == [r.backoffs[0], r.backoffs[1]];
  }

  /** A second download after a successful one makes no attempt and succeeds. */
  lemma DownloadIdempotent(files: Files, dest: string, first: Attempts, second: Attempts, retries: int)
    requires DownloadFile(files, dest, first, retries).ok
    ensures var f := DownloadFile(files, dest, first, retries).files;
      DownloadFile(f, dest, second, retries) == Download(true, f, 0, [])
  {
  }

  // ---------------------------------------------------------------------------
  // upsert_structure_paths
  // ---------------------------------------------------------------------------

  /** The stored row, or the one the upsert's INSERT would create. */
  function StructureOf(structures: map<int, StructureRecord>, phytoId: int): StructureRecord {
    if phytoId in structures then structures[phytoId] else NoStructure
  }

  /** Ensure a row exists, then set the 2D flag and path, the 3D flag and path,
      and the PNG path, each only for a file that was obtained. */
  function UpsertStructurePaths(structures: map<int, StructureRecord>, phytoId: int, cid: int,
                                got2d: bool, got3d: bool, gotPng: bool): (r: map<int, StructureRecord>)
    ensures r.Keys == structures.Keys + {phytoId}
    ensures forall p :: p in structures && p != phytoId ==> r[p] == structures[p]
    ensures var before := StructureOf(structures, phytoId);
      var after := r[phytoId];
      && (if got2d then after.has2d == 1 && after.sdf2dPath == Some(Sdf2dPath(cid))
          else after.has2d == before.has2d && after.sdf2dPath == before.sdf2dPath)
      && (if got3d then after.has3d == 1 && after.sdf3dPath == Some(Sdf3dPath(cid))
          else after.has3d == before.has3d && after.sdf3dPath == before.sdf3dPath)
      && after.png2dPath == (if gotPng then Some(PngPath(cid)) else before.png2dPath)
    ensures StructuresGrow(structures, r)
  {
    var row := StructureOf(structures, phytoId);
    var row := if got2d then row.(has2d := 1, sdf2dPath := Some(Sdf2dPath(cid))) else row;
    var row := if got3d then row.(has3d := 1, sdf3dPath := Some(Sdf3dPath(cid))) else row;
    var row := if gotPng then row.(png2dPath := Some(PngPath(cid))) else row;
    structures[phytoId := row]
  }

  /** Two upserts for the same compound are one upsert of everything either
      obtained; in particular, repeating an upsert changes nothing. */
  lemma UpsertMerges(structures: map<int, StructureRecord>, phytoId: int, cid: int,
                     a2: bool, a3: bool, ap: bool, b2: bool, b3: bool, bp: bool)
    ensures UpsertStructurePaths(UpsertStructurePaths(structures, phytoId, cid, a2, a3, ap), phytoId, cid, b2, b3, bp)
         == UpsertStructurePaths(structures, phytoId, cid, a2 || b2, a3 || b3, ap || bp)
  {
    var once := UpsertStructurePaths(structures, phytoId, cid, a2, a3, ap);
    var twice := UpsertStructurePaths(once, phytoId, cid, b2, b3, bp);
    var merged := UpsertStructurePaths(structures, phytoId, cid, a2 || b2, a3 || b3, ap || bp);
    assert twice[phytoId] == merged[phytoId];
    assert twice == merged;
  }

  // ---------------------------------------------------------------------------
  // fetch_structures_on_demand
  // ---------------------------------------------------------------------------

  /** Where an artifact is stored, relative to the static root. */
  function StoredPath(a: Artifact, cid: int): string {
    match a
    case Sdf2d => Sdf2dPath(cid)
    case Sdf3d => Sdf3dPath(cid)
    case Png => PngPath(cid)
  }

  /** Where an artifact is written, relative to the app directory. */
  function Dest(a: Artifact, cid: int): string {
    "static/" + StoredPath(a, cid)
  }

  /** The three artifacts of one compound go to three different files. */
  lemma DestsDistinct(a: Artifact, b: Artifact, cid: int)
    requires a != b
    ensures Dest(a, cid) != Dest(b, cid)
  {
    var x, y := Dest(a, cid), Dest(b, cid);
    var n := IntToString(cid);
    assert x[18] == StoredPath(a, cid)[11] && y[18] == StoredPath(b, cid)[11];
    assert x[21] == StoredPath(a, cid)[14] && y[21] == StoredPath(b, cid)[14];
    if a == Png || b == Png {
      assert x[18] != y[18];
    } else {
      assert x[21] != y[21];
    }
  }

  /** The downloader would end with the artifact on disk: it is already there
      or one of the first three attempts is valid. */
  predicate Obtainable(files: Files, a: Artifact, cid: int, server: Server) {
    Present(files, Dest(a, cid)) || exists i :: 1 <= i <= Retries && Valid(server(a, cid)(i))
  }

  /** The returned flag, the structure table and files afterwards, and the
      number of requests sent. */
  datatype Fetched = Fetched(ok: bool, structures: map<int, StructureRecord>, files: Files, requests: nat)

  function FetchStructuresOnDemand(structures: map<int, StructureRecord>, files: Files,
                                   phytoId: int, cid: Option<int>, server: Server): (r: Fetched)
    ensures !CidTruthy(cid) ==> r == Fetched(false, structures, files, 0)
    ensures CidTruthy(cid) ==>
      var c := cid.value;
      && (r.ok <==> exists a: Artifact :: Obtainable(files, a, c, server))
      && r.structures == (if r.ok then UpsertStructurePaths(structures, phytoId, c,
                                         Obtainable(files, Sdf2d, c, server),
                                         Obtainable(files, Sdf3d, c, server),
                                         Obtainable(files, Png, c, server))
                          else structures)
      && (forall a: Artifact :: Obtainable(files, a, c, server) ==> Present(r.files, Dest(a, c)))
    ensures !r.ok ==> r.structures == structures && r.files == files
    ensures StructuresGrow(structures, r.structures)
  {
    if !CidTruthy(cid) then Fetched(false, structures, files, 0)
    else
      var c := cid.value;
      var d2 := DownloadFile(files, Dest(Sdf2d, c), server(Sdf2d, c), Retries);
      var d3 := DownloadFile(d2.files, Dest(Sdf3d, c), server(Sdf3d, c), Retries);
      var dp := DownloadFile(d3.files, Dest(Png, c), server(Png, c), Retries);
      var requests := d2.attempts + d3.attempts + dp.attempts;
      FetchedFacts(files, c, server, d2, d3, dp);
      if d2.ok || d3.ok || dp.ok then
        Fetched(true, UpsertStructurePaths(structures, phytoId, c, d2.ok, d3.ok, dp.ok), dp.files, requests)
      else Fetched(false, structures, files, requests)
  }

  /** One download succeeds iff its artifact is obtainable. */
  lemma DownloadObtains(files: Files, a: Artifact, c: int, server: Server)
    ensures DownloadFile(files, Dest(a, c), server(a, c), Retries).ok <==> Obtainable(files, a, c, server)
  {
  }

  /** A download leaves every other destination as it was. */
  lemma DownloadElsewhere(files: Files, dest: string, other: string, tries: Attempts)
    requires dest != other
    ensures Present(DownloadFile(files, dest, tries, Retries).files, other) == Present(files, other)
  {
  }

  /** The three sequential downloads: each one succeeds iff its artifact is
      obtainable from the original files, since the others write elsewhere. */
  lemma FetchedFacts(files: Files, c: int, server: Server, d2: Download, d3: Download, dp: Download)
    requires d2 == DownloadFile(files, Dest(Sdf2d, c), server(Sdf2d, c), Retries)
    requires d3 == DownloadFile(d2.files, Dest(Sdf3d, c), server(Sdf3d, c), Retries)
    requires dp == DownloadFile(d3.files, Dest(Png, c), server(Png, c), Retries)
    ensures d2.ok <==> Obtainable(files, Sdf2d, c, server)
    ensures d3.ok <==> Obtainable(files, Sdf3d, c, server)
    ensures dp.ok <==> Obtainable(files, Png, c, server)
    ensures !d2.ok && !d3.ok && !dp.ok ==> dp.files == files
    ensures forall a: Artifact :: Obtainable(files, a, c, server) ==> Present(dp.files, Dest(a, c))
  {
    DestsDistinct(Sdf2d, Sdf3d, c);
    DestsDistinct(Sdf2d, Png, c);
    DestsDistinct(Sdf3d, Png, c);
    DownloadObtains(files, Sdf2d, c, server);
    DownloadElsewhere(files, Dest(Sdf2d, c), Dest(Sdf3d, c), server(Sdf2d, c));
    DownloadElsewhere(files, Dest(Sdf2d, c), Dest(Png, c), server(Sdf2d, c));
    DownloadElsewhere(d2.files, Dest(Sdf3d, c), Dest(Png, c), server(Sdf3d, c));
    DownloadElsewhere(d2.files, Dest(Sdf3d, c), Dest(Sdf2d, c), server(Sdf3d, c));
    DownloadElsewhere(d3.files, Dest(Png, c), Dest(Sdf2d, c), server(Png, c));
    DownloadElsewhere(d3.files, Dest(Png, c), Dest(Sdf3d, c), server(Png, c));
    assert Obtainable(d2.files, Sdf3d, c, server) <==> Obtainable(files, Sdf3d, c, server);
    assert Obtainable(d3.files, Png, c, server) <==> Obtainable(files, Png, c, server);
    DownloadObtains(d2.files, Sdf3d, c, server);
    DownloadObtains(d3.files, Png, c, server);
    var p2, p3, pp := Dest(Sdf2d, c), Dest(Sdf3d, c), Dest(Png, c);
    assert Present(dp.files, p2) == d2.ok by {
      assert Present(d2.files, p2) == d2.ok;
    }
    assert Present(dp.files, p3) == d3.ok by {
      assert Present(d3.files, p3) == d3.ok;
    }
    assert Present(dp.files, pp) == dp.ok;
    if !d2.ok && !d3.ok && !dp.ok {
      assert d2.files == files;
      assert d3.files == files;
    }
    forall a: Artifact | Obtainable(files, a, c, server)
      ensures Present(dp.files, Dest(a, c))
    {
      assert a == Sdf2d || a == Sdf3d || a == Png;
    }
  }

  /** Only the depiction fails: the row still gains both SDF paths and flags,
      and its depiction path stays as it was, for a later visit to retry. */
  lemma PartialFailure(structures: map<int, StructureRecord>, files: Files, phytoId: int, c: int, server: Server)
    requires c != 0
    requires Obtainable(files, Sdf2d, c, server) && Obtainable(files, Sdf3d, c, server)
    requires !Obtainable(files, Png, c, server)
    ensures var r := FetchStructuresOnDemand(structures, files, phytoId, Some(c), server);
      var t := r.structures[phytoId];
      && r.ok && t.has2d == 1 && t.has3d == 1
      && t.sdf2dPath == Some(Sdf2dPath(c)) && t.sdf3dPath == Some(Sdf3dPath(c))
      && t.png2dPath == StructureOf(structures, phytoId).png2dPath
  {
  }

  /** Once all three artifacts have been obtained, another visit sends no
      request and leaves the structure row as it is, whatever the service does. */
  lemma FetchIdempotent(structures: map<int, StructureRecord>, files: Files, phytoId: int,
                        cid: Option<int>, first: Server, second: Server)
    requires CidTruthy(cid)
    requires forall a: Artifact :: Obtainable(files, a, cid.value, first)
    ensures var r := FetchStructuresOnDemand(structures, files, phytoId, cid, first);
      FetchStructuresOnDemand(r.structures, r.files, phytoId, cid, second)
        == Fetched(true, r.structures, r.files, 0)
  {
    var c := cid.value;
    var r := FetchStructuresOnDemand(structures, files, phytoId, cid, first);
    assert Obtainable(files, Sdf2d, c, first) && Obtainable(files, Sdf3d, c, first)
        && Obtainable(files, Png, c, first);
    assert forall a: Artifact :: Present(r.files, Dest(a, c));
    UpsertMerges(structures, phytoId, c, true, true, true, true, true, true);
  }

  // ---------------------------------------------------------------------------
  // Descriptors: _pubchem_get_txt and fetch_descriptors_from_pubchem
  // ---------------------------------------------------------------------------

  /** A text-endpoint answer as a column value: trimmed, and NULL when the
      request failed or the body is empty or reads "null" in any case. */
  function TxtValue(resp: TextResponse): (r: Option<string>)
    ensures resp.TextFailed? ==> r == None
    ensures resp.TextBody? ==>
      (r.None? <==> Strip(resp.text) == [] || Lower(Strip(resp.text)) == "null")
    ensures r.Some? ==> r.value == Strip(resp.text) && Trimmed(r.value)
    ensures r.Some? ==> r.value != [] && Lower(r.value) != "null"
  {
    match resp
    case TextFailed => None
    case TextBody(raw) =>
      var t := Strip(raw);
      if t == [] || Lower(t) == "null" then None else Some(t)
  }

  /** Padding around a proper value is dropped... */
  lemma TxtValuePadded(p: string, t: string, q: string)
    requires AllSpace(p) && AllSpace(q) && Trimmed(t) && t != [] && Lower(t) != "null"
    ensures TxtValue(TextBody(p + t + q)) == Some(t)
  {
    StripPadded(p, t, q);
  }

  /** ...and a padded "null" marker, in any case, is NULL. */
  lemma TxtValueNullMarker(p: string, t: string, q: string)
    requires AllSpace(p) && AllSpace(q) && Lower(t) == "null"
    ensures TxtValue(TextBody(p + t + q)) == None
  {
    assert |t| == 4;
    assert Trimmed(t) by {
      assert LowerChar(t[0]) == Lower(t)[0] == 'n';
      assert LowerChar(t[3]) == Lower(t)[3] == 'l';
      LowerCharFacts(t[0]);
      LowerCharFacts(t[3]);
    }
    StripPadded(p, t, q);
  }

  /** The stored row and the text properties that were requested for it. */
  datatype Built = Built(row: DescriptorRecord, requested: seq<string>)

  /** The row from the batched properties, each SMILES column falling back to
      the text endpoint only when the batched value is NULL. */
  function BuildDescriptorRow(props: DescriptorRecord, txt: string -> TextResponse): (r: Built)
    ensures r.row.(smiles := props.smiles, isomericSmiles := props.isomericSmiles) == props
    ensures r.row.smiles == (if props.smiles.Some? then props.smiles else TxtValue(txt("CanonicalSMILES")))
    ensures r.row.isomericSmiles ==
      (if props.isomericSmiles.Some? then props.isomericSmiles else TxtValue(txt("IsomericSMILES")))
    ensures "CanonicalSMILES" in r.requested <==> props.smiles.None?
    ensures "IsomericSMILES" in r.requested <==> props.isomericSmiles.None?
    ensures |r.requested| <= 2
  {
    var canonical := if props.smiles.Some? then props.smiles else TxtValue(txt("CanonicalSMILES"));
    var isomeric := if props.isomericSmiles.Some? then props.isomericSmiles else TxtValue(txt("IsomericSMILES"));
    var requested := (if props.smiles.None? then ["CanonicalSMILES"] else [])
                   + (if props.isomericSmiles.None? then ["IsomericSMILES"] else []);
    Built(props.(smiles := canonical, isomericSmiles := isomeric), requested)
  }

  /** Rebuilding a built row against the same service changes nothing: a value
      the fallback found is kept, and one it could not find is not found again. */
  lemma BuildDescriptorRowStable(props: DescriptorRecord, txt: string -> TextResponse)
    ensures var row := BuildDescriptorRow(props, txt).row;
      BuildDescriptorRow(row, txt).row == row
  {
  }

  /** The canonical SMILES missing from the batched answer is taken from the
      text endpoint when that answers "CCO"... */
  lemma SmilesFallbackFound(props: DescriptorRecord, txt: string -> TextResponse)
    requires props.smiles.None? && txt("CanonicalSMILES") == TextBody("CCO")
    ensures BuildDescriptorRow(props, txt).row.smiles == Some("CCO")
  {
    assert Lower("CCO") == "cco";
    TxtValuePadded("", "CCO", "");
    assert "" + "CCO" + "" == "CCO";
  }

  /** ...and stays NULL, not the marker text, when that answers "null". */
  lemma SmilesFallbackNull(props: DescriptorRecord, txt: string -> TextResponse)
    requires props.smiles.None? && txt("CanonicalSMILES") == TextBody("null")
    ensures BuildDescriptorRow(props, txt).row.smiles == None
  {
    assert Lower("null") == "null";
    TxtValueNullMarker("", "null", "");
    assert "" + "null" + "" == "null";
  }

  /** The returned flag and the descriptor table afterwards. */
  datatype DescriptorFetch = DescriptorFetch(ok: bool, descriptors: map<int, DescriptorRecord>)

  /** All or nothing: when the batched request fails nothing is written;
      otherwise all fifteen columns of the row are overwritten. */
  function FetchDescriptors(descriptors: map<int, DescriptorRecord>, phytoId: int, cid: Option<int>,
                            service: Service): (r: DescriptorFetch)
    ensures r.ok <==> CidTruthy(cid) && service.properties(cid.value).Some?
    ensures !r.ok ==> r.descriptors == descriptors
    ensures r.ok ==> r.descriptors.Keys == descriptors.Keys + {phytoId}
    ensures r.ok ==> forall p :: p in descriptors && p != phytoId ==> r.descriptors[p] == descriptors[p]
    ensures r.ok ==>
      r.descriptors[phytoId] == BuildDescriptorRow(service.properties(cid.value).value,
                                                   s => service.text(cid.value, s)).row
  {
    if !CidTruthy(cid) then DescriptorFetch(false, descriptors)
    else
      match service.properties(cid.value)
      case None => DescriptorFetch(false, descriptors)
      case Some(props) =>
        var built := BuildDescriptorRow(props, s => service.text(cid.value, s));
        DescriptorFetch(true, descriptors[phytoId := built.row])
  }

  // ---------------------------------------------------------------------------
  // phytochemical_detail
  // ---------------------------------------------------------------------------

  /** The joined row the detail page reads: the phytochemical with its
      structure and descriptor rows, or their all-NULL stand-ins. */
  datatype PhytoView = PhytoView(
    id: int, name: string, cid: Option<int>, structure: StructureRecord, descriptors: DescriptorRecord)

  function FetchPhytoFull(db: Db, phytoId: int): (r: Option<PhytoView>)
    ensures r.Some? <==> phytoId in db.phytochemicals
    ensures r.Some? ==>
      && r.value.id == phytoId
      && r.value.name == db.phytochemicals[phytoId].name
      && r.value.cid == db.phytochemicals[phytoId].cid
      && r.value.structure == StructureOf(db.structures, phytoId)
      && r.value.descriptors == (if phytoId in db.descriptors then db.descriptors[phytoId] else NoDescriptors)
  {
    if phytoId !in db.phytochemicals then None
    else
      var p := db.phytochemicals[phytoId];
      Some(PhytoView(phytoId, p.name, p.cid, StructureOf(db.structures, phytoId),
                     if phytoId in db.descriptors then db.descriptors[phytoId] else NoDescriptors))
  }

  /** Structure enrichment is due: a compound id and no stored path at all. */
  predicate NeedsStructures(v: PhytoView) {
    && CidTruthy(v.cid)
    && !Truthy(v.structure.sdf2dPath)
    && !Truthy(v.structure.sdf3dPath)
    && !Truthy(v.structure.png2dPath)
  }

  /** Descriptor enrichment is due: a compound id and a missing weight, SMILES or InChIKey. */
  predicate NeedsDescriptors(v: PhytoView) {
    && CidTruthy(v.cid)
    && (v.descriptors.molecularWeight.None? || v.descriptors.smiles.None? || v.descriptors.inchikey.None?)
  }

  /** The store and the static files: what a request can change. */
  datatype Site = Site(db: Db, files: Files)

  /** What the page shows, the site afterwards, and which enrichments ran. */
  datatype DetailPage = DetailPage(
    phyto: PhytoView, rules: Option<Report>, site: Site, ranStructures: bool, ranDescriptors: bool)

  datatype NotFound = NotFound

  /** The structure step of the page: enrichment when it is due, otherwise
      nothing; only the structures table and the files can change. */
  function EnrichStructures(site: Site, phytoId: int, v: PhytoView, service: Service): (r: Site)
    ensures r.db.(structures := site.db.structures) == site.db
    ensures StructuresGrow(site.db.structures, r.db.structures)
    ensures NeedsStructures(v) ==>
      var f := FetchStructuresOnDemand(site.db.structures, site.files, phytoId, v.cid, service.structures);
      r.db.structures == f.structures && r.files == f.files
    ensures !NeedsStructures(v) ==> r == site
  {
    if NeedsStructures(v) then
      var f := FetchStructuresOnDemand(site.db.structures, site.files, phytoId, v.cid, service.structures);
      Site(site.db.(structures := f.structures), f.files)
    else site
  }

  /** The descriptor step of the page: only the descriptors table can change. */
  function EnrichDescriptors(site: Site, phytoId: int, v: PhytoView, service: Service): (r: Site)
    ensures r.files == site.files
    ensures r.db.(descriptors := site.db.descriptors) == site.db
    ensures NeedsDescriptors(v) ==>
      r.db.descriptors == FetchDescriptors(site.db.descriptors, phytoId, v.cid, service).descriptors
    ensures !NeedsDescriptors(v) ==> r == site
  {
    if NeedsDescriptors(v) then
      site.(db := site.db.(descriptors := FetchDescriptors(site.db.descriptors, phytoId, v.cid, service).descriptors))
    else site
  }

  /** The rule report is computed only when a molecular weight is known. */
  function RulesFor(d: DescriptorRecord): (r: Option<Report>)
    ensures r.Some? <==> d.molecularWeight.Some?
    ensures r.Some? ==> r.value == CalcDruglikenessRules(d)
  {
    if d.molecularWeight.Some? then Some(CalcDruglikenessRules(d)) else None
  }

  function PhytochemicalDetail(site: Site, phytoId: int, service: Service): (r: Result<DetailPage, NotFound>)
    ensures r.Failure? <==> phytoId !in site.db.phytochemicals
    ensures r.Success? ==>
      var v := FetchPhytoFull(site.db, phytoId).value;
      var page := r.value;
      && (page.ranStructures <==> NeedsStructures(v))
      && (page.ranDescriptors <==> NeedsDescriptors(v))
      && Some(page.phyto) == FetchPhytoFull(page.site.db, phytoId)
      && page.rules == RulesFor(page.phyto.descriptors)
      && page.site.db.(structures := site.db.structures, descriptors := site.db.descriptors) == site.db
      && StructuresGrow(site.db.structures, page.site.db.structures)
      && (!page.ranStructures ==> page.site.db.structures == site.db.structures && page.site.files == site.files)
      && (!page.ranDescriptors ==> page.site.db.descriptors == site.db.descriptors)
    ensures r.Success? ==>
      var v := FetchPhytoFull(site.db, phytoId).value;
      var page := r.value;
      var f := FetchStructuresOnDemand(site.db.structures, site.files, phytoId, v.cid, service.structures);
      page.ranStructures ==> page.site.db.structures == f.structures && page.site.files == f.files
    ensures r.Success? ==>
      var v := FetchPhytoFull(site.db, phytoId).value;
      var page := r.value;
      page.ranDescriptors ==>
        page.site.db.descriptors == FetchDescriptors(site.db.descriptors, phytoId, v.cid, service).descriptors
  {
    match FetchPhytoFull(site.db, phytoId)
    case None => Failure(NotFound)
    case Some(v) =>
      var site1 := EnrichStructures(site, phytoId, v, service);
      var v1 := FetchPhytoFull(site1.db, phytoId).value;
      var site2 := EnrichDescriptors(site1, phytoId, v1, service);
      var v2 := FetchPhytoFull(site2.db, phytoId).value;
      Success(DetailPage(v2, RulesFor(v2.descriptors), site2, NeedsStructures(v), NeedsDescriptors(v1)))
  }
}
