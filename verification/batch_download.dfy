/** The offline batch downloader: for every compound with a `cid` and a
    structure row, fetch the 2D and 3D SDF records and the PNG depiction the
    chosen mode asks for, and record the static-relative paths of the files
    it saved. */
module BatchDownload {
  import opened Wrappers
  import opened Text
  import opened Store
  import opened Remote

  // ---------------------------------------------------------------------------
  // download
  // ---------------------------------------------------------------------------

  /** The default retry budget. */
  const Retries := 3

  /** An attempt whose failure the downloader catches and retries: a network
      error, or an empty body (which it raises as a `URLError` itself). */
  predicate Caught(a: Attempt) {
    a.NetworkError? || (a.Response? && a.body == [])
  }

  /** An attempt that delivers content. */
  predicate Received(a: Attempt) {
    a.Response? && a.body != []
  }

  /** `Saved`: the file was written. `Failed`: every attempt was caught.
      `Raised`: an error the downloader does not catch escaped it. */
  datatype Outcome = Saved | Failed | Raised

  /** The outcome, the files afterwards, the number of the last attempt made
      (counted from 1; 0 when none was) and the pauses slept between attempts. */
  datatype Fetch = Fetch(outcome: Outcome, files: Files, attempts: nat, sleeps: seq<real>)

  /** The pause after failed attempt `m` lasts `1.5 * m` seconds. */
  predicate Sleeps(b: seq<real>, first: nat) {
    forall k :: 0 <= k < |b| ==> b[k] == 1.5 * ((first + k) as real)
  }

  /** Attempt `m` is the first from `n` on that is not caught, and it delivers. */
  predicate SavedAt(tries: Attempts, n: nat, m: nat) {
    n <= m && Received(tries(m)) && forall j :: n <= j < m ==> Caught(tries(j))
  }

  /** Attempt `m` is the first from `n` on that is not caught, and it raises. */
  predicate RaisedAt(tries: Attempts, n: nat, m: nat) {
    n <= m && tries(m).OtherError? && forall j :: n <= j < m ==> Caught(tries(j))
  }

  /** After a caught attempt `n`, the first uncaught attempt from `n` is the
      first from `n + 1`. */
  lemma CaughtShifts(tries: Attempts, n: nat)
    requires Caught(tries(n))
    ensures forall m: nat :: SavedAt(tries, n, m) <==> SavedAt(tries, n + 1, m)
    ensures forall m: nat :: RaisedAt(tries, n, m) <==> RaisedAt(tries, n + 1, m)
  {
  }

  /** A download with the default budget saves the file, or raises. */
  predicate SavedBy(tries: Attempts) {
    exists m: nat :: m <= Retries && SavedAt(tries, 1, m)
  }

  predicate RaisedBy(tries: Attempts) {
    exists m: nat :: m <= Retries && RaisedAt(tries, 1, m)
  }

  /** Attempts `n` to `retries`, stopping at the first one not caught. */
  function TryFrom(files: Files, dest: string, tries: Attempts, n: nat, retries: int): (r: Fetch)
    requires n >= 1
    ensures r.outcome == Saved <==> exists m: nat :: m <= retries && SavedAt(tries, n, m)
    ensures r.outcome == Raised <==> exists m: nat :: m <= retries && RaisedAt(tries, n, m)
    ensures r.outcome == Failed <==> forall m :: n <= m <= retries ==> Caught(tries(m))
    ensures r.outcome == Saved ==>
      r.attempts <= retries && SavedAt(tries, n, r.attempts) && r.files == files[dest := tries(r.attempts).body]
    ensures r.outcome == Raised ==> r.attempts <= retries && RaisedAt(tries, n, r.attempts) && r.files == files
    ensures r.outcome == Failed ==> r.files == files && r.attempts == (if retries >= n then retries else n - 1)
    ensures |r.sleeps| == (if r.attempts >= n then r.attempts - n else 0)
    ensures Sleeps(r.sleeps, n)
    decreases retries - n + 1
  {
    if n > retries then Fetch(Failed, files, n - 1, [])
    else
      var a := tries(n);
      if Received(a) then
        assert SavedAt(tries, n, n);
        Fetch(Saved, files[dest := a.body], n, [])
      else if a.OtherError? then
        assert RaisedAt(tries, n, n);
        Fetch(Raised, files, n, [])
      else
        var rest := TryFrom(files, dest, tries, n + 1, retries);
        CaughtShifts(tries, n);
        assert rest.outcome == Saved ==> exists m: nat :: m <= retries && SavedAt(tries, n, m) by {
          if rest.outcome == Saved {
            var m: nat :| m <= retries && SavedAt(tries, n + 1, m);
            assert SavedAt(tries, n, m);
          }
        }
        assert rest.outcome == Raised ==> exists m: nat :: m <= retries && RaisedAt(tries, n, m) by {
          if rest.outcome == Raised {
            var m: nat :| m <= retries && RaisedAt(tries, n + 1, m);
            assert RaisedAt(tries, n, m);
          }
        }
        if n == retries then rest
        else
          assert rest.attempts >= n + 1 by {
            if rest.outcome == Saved || rest.outcome == Raised {
            } else {
              assert retries >= n + 1;
            }
          }
          rest.(sleeps := [1.5 * (n as real)] + rest.sleeps)
  }

  /** Fetch into `dest`, overwriting whatever is there: success exactly when
      some attempt delivers before any attempt raises, with no pause after the
      last attempt. */
  function Download(files: Files, dest: string, tries: Attempts, retries: int): (r: Fetch)
    ensures r.outcome == Saved <==> exists m: nat :: m <= retries && SavedAt(tries, 1, m)
    ensures r.outcome == Raised <==> exists m: nat :: m <= retries && RaisedAt(tries, 1, m)
    ensures r.outcome == Saved ==>
      SavedAt(tries, 1, r.attempts) && r.files == files[dest := tries(r.attempts).body] && r.files[dest] != []
    ensures r.outcome != Saved ==> r.files == files
    ensures r.attempts <= (if retries > 0 then retries else 0)
    ensures |r.sleeps| == (if r.attempts > 0 then r.attempts - 1 else 0)
    ensures Sleeps(r.sleeps, 1)
  {
    TryFrom(files, dest, tries, 1, retries)
  }

  /** Three empty bodies: failure after three attempts and pauses of 1.5 and 3
      seconds, none after the last. */
  lemma DownloadThreeEmpty(files: Files, dest: string, tries: Attempts)
    requires tries(1) == Response([]) && tries(2) == Response([]) && tries(3) == Response([])
    ensures var r := Download(files, dest, tries, Retries);
      r.outcome == Failed && r.attempts == 3 && r.sleeps == [1.5, 3.0] && r.files == files
  {
    var r := Download(files, dest, tries, Retries);
    assert forall m :: 1 <= m <= Retries ==> Caught(tries(m));
    assert r.sleeps == [r.sleeps[0], r.sleeps[1]];
  }

  /** The attempts after the first one that is not caught are never made. */
  lemma DownloadStopsEarly(files: Files, dest: string, tries: Attempts, other: Attempts, m: nat)
    requires 1 <= m && (forall j :: 1 <= j < m ==> Caught(tries(j))) && !Caught(tries(m))
    requires forall j :: 1 <= j <= m ==> other(j) == tries(j)
    ensures Download(files, dest, other, Retries) == Download(files, dest, tries, Retries)
  {
    TryFromAgrees(files, dest, tries, other, 1, Retries, m);
  }

  lemma {:induction false} TryFromAgrees(files: Files, dest: string, tries: Attempts, other: Attempts,
                                         n: nat, retries: int, m: nat)
    requires 1 <= n <= m && (forall j :: n <= j < m ==> Caught(tries(j))) && !Caught(tries(m))
    requires forall j :: n <= j <= m ==> other(j) == tries(j)
    ensures TryFrom(files, dest, other, n, retries) == TryFrom(files, dest, tries, n, retries)
    decreases m - n
  {
    hide *;
    if n <= retries && n < m {
      assert Caught(tries(n)) && other(n) == tries(n);
      TryFromAgrees(files, dest, tries, other, n + 1, retries, m);
      TryFromCaught(files, dest, tries, n, retries);
      TryFromCaught(files, dest, other, n, retries);
    } else {
      TryFromStops(files, dest, tries, other, n, retries);
    }
  }

  /** A caught attempt `n` within the budget: the rest of the attempts decide,
      with a pause recorded unless `n` was the last. */
  lemma TryFromCaught(files: Files, dest: string, tries: Attempts, n: nat, retries: int)
    requires 1 <= n <= retries && Caught(tries(n))
    ensures var rest := TryFrom(files, dest, tries, n + 1, retries);
      TryFrom(files, dest, tries, n, retries) ==
        if n == retries then rest else rest.(sleeps := [1.5 * (n as real)] + rest.sleeps)
  {
  }

  /** Past the budget, or at an attempt that is not caught, the result depends
      on attempt `n` alone. */
  lemma TryFromStops(files: Files, dest: string, tries: Attempts, other: Attempts, n: nat, retries: int)
    requires 1 <= n && other(n) == tries(n) && (n > retries || !Caught(tries(n)))
    ensures TryFrom(files, dest, other, n, retries) == TryFrom(files, dest, tries, n, retries)
  {
  }

  // ---------------------------------------------------------------------------
  // rel_to_static
  // ---------------------------------------------------------------------------

  /** A `pathlib` path: its components, and the separator the platform renders
      it with (`"/"` on POSIX, `"\\"` on Windows). */
  datatype Path = Path(parts: seq<string>, sep: string)

  /** `str(path)`. */
  function Render(p: Path): string {
    Join(p.parts, p.sep)
  }

  /** Every backslash turned into a forward slash. */
  function Slashes(s: string): (r: string)
    ensures |r| == |s| && '\\' !in r
    ensures forall i :: 0 <= i < |s| ==> r[i] == (if s[i] == '\\' then '/' else s[i])
  {
    var r := seq(|s|, i requires 0 <= i < |s| => if s[i] == '\\' then '/' else s[i]);
    assert forall i :: 0 <= i < |r| ==> r[i] != '\\';
    r
  }

  /** Index of the first occurrence of `x`. */
  function IndexOf(xs: seq<string>, x: string): (i: nat)
    requires x in xs
    ensures i < |xs| && xs[i] == x && forall j :: 0 <= j < i ==> xs[j] != x
  {
    if xs[0] == x then 0 else 1 + IndexOf(xs[1..], x)
  }

  /** The path the web app's static route serves a file under: the components
      after the first `static` component joined by "/", or, when there is no
      such component, the whole path with backslashes turned into slashes. */
  function RelToStatic(p: Path): (r: string)
    ensures "static" in p.parts ==> exists i ::
      0 <= i < |p.parts| && p.parts[i] == "static" && (forall j :: 0 <= j < i ==> p.parts[j] != "static")
      && r == Join(p.parts[i + 1..], "/")
    ensures "static" !in p.parts ==> r == Slashes(Render(p)) && '\\' !in r
  {
    if "static" in p.parts then
      var i := IndexOf(p.parts, "static");
      FirstStatic(p.parts, i, Join(p.parts[i + 1..], "/"));
      Join(p.parts[i + 1..], "/")
    else Slashes(Render(p))
  }

  /** The witness for `RelToStatic`'s first postcondition. */
  lemma FirstStatic(parts: seq<string>, i: nat, r: string)
    requires i < |parts| && parts[i] == "static" && (forall j :: 0 <= j < i ==> parts[j] != "static")
    requires r == Join(parts[i + 1..], "/")
    ensures exists k ::
      0 <= k < |parts| && parts[k] == "static" && (forall j :: 0 <= j < k ==> parts[j] != "static")
      && r == Join(parts[k + 1..], "/")
  {
  }

  /** With `static` first at component `i`, the components after it, joined by "/". */
  lemma RelToStaticAt(p: Path, i: nat)
    requires i < |p.parts| && p.parts[i] == "static" && forall j :: 0 <= j < i ==> p.parts[j] != "static"
    ensures RelToStatic(p) == Join(p.parts[i + 1..], "/")
  {
    var k := IndexOf(p.parts, "static");
    assert p.parts[k] == "static" && p.parts[i] == "static";
  }

  lemma RelToStaticExample()
    ensures RelToStatic(Path(["static", "structures", "png", "CID_2758.png"], "/")) == "structures/png/CID_2758.png"
  {
    hide *;
    var parts := ["static", "structures", "png", "CID_2758.png"];
    RelToStaticAt(Path(parts, "/"), 0);
    assert parts[1..] == ["structures", "png", "CID_2758.png"];
    JoinThree("structures", "png", "CID_2758.png", "/");
  }

  lemma SlashesConcat(a: string, b: string)
    ensures Slashes(a + b) == Slashes(a) + Slashes(b)
  {
    assert forall i :: 0 <= i < |a + b| ==> (a + b)[i] == (if i < |a| then a[i] else b[i - |a|]);
  }

  /** On Windows, a path without a `static` component comes back as its
      components joined by forward slashes. */
  lemma {:induction false} WindowsPathSlashes(parts: seq<string>)
    requires forall i :: 0 <= i < |parts| ==> '\\' !in parts[i]
    ensures Slashes(Join(parts, "\\")) == Join(parts, "/")
    decreases |parts|
  {
    if |parts| == 1 {
      assert Slashes(parts[0]) == parts[0];
    } else if |parts| > 1 {
      WindowsPathSlashes(parts[1..]);
      SlashesConcat(parts[0] + "\\", Join(parts[1..], "\\"));
      SlashesConcat(parts[0], "\\");
      assert Slashes(parts[0]) == parts[0];
      assert Slashes("\\") == "/";
    }
  }

  // ---------------------------------------------------------------------------
  // Destinations
  // ---------------------------------------------------------------------------

  function SubDir(a: Artifact): string {
    match a
    case Sdf2d => "sdf2d"
    case Sdf3d => "sdf3d"
    case Png => "png"
  }

  function FileName(a: Artifact, cid: int): string {
    "CID_" + IntToString(cid) + (if a.Png? then ".png" else ".sdf")
  }

  /** `out_dir / "sdf2d" / f"CID_{cid}.sdf"` and its siblings. */
  function DestOf(out: Path, a: Artifact, cid: int): Path {
    out.(parts := out.parts + [SubDir(a), FileName(a, cid)])
  }

  /** The path the web app stores for the same artifact. */
  function AppPath(a: Artifact, cid: int): string {
    match a
    case Sdf2d => Sdf2dPath(cid)
    case Sdf3d => Sdf3dPath(cid)
    case Png => PngPath(cid)
  }

  /** The rendering of `out_dir`'s children below `static`, for a directory
      `static/structures`: "structures/<sub>/<name>". */
  lemma DefaultDestRel(sep: string, a: Artifact, cid: int)
    ensures RelToStatic(DestOf(Path(["static", "structures"], sep), a, cid))
         == "structures" + "/" + (SubDir(a) + "/" + FileName(a, cid))
  {
    hide Join, IntToString;
    var p := DestOf(Path(["static", "structures"], sep), a, cid);
    assert p.parts == ["static", "structures", SubDir(a), FileName(a, cid)];
    RelToStaticAt(p, 0);
    assert p.parts[1..] == ["structures", SubDir(a), FileName(a, cid)];
    JoinThree("structures", SubDir(a), FileName(a, cid), "/");
  }

  lemma RegroupPath(dir: string, sep: string, sub: string, prefix: string, n: string, ext: string)
    ensures dir + sep + (sub + sep + (prefix + n + ext)) == (dir + sep + sub + sep + prefix) + n + ext
  {
  }

  /** With the default output directory `static/structures`, the batch
      downloader records exactly the paths the web app records. */
  lemma DefaultDestMatchesApp(sep: string, a: Artifact, cid: int)
    ensures RelToStatic(DestOf(Path(["static", "structures"], sep), a, cid)) == AppPath(a, cid)
  {
    hide IntToString, RelToStatic, DestOf, Join;
    DefaultDestRel(sep, a, cid);
    var n := IntToString(cid);
    var ext := if a.Png? then ".png" else ".sdf";
    assert FileName(a, cid) == "CID_" + n + ext;
    RegroupPath("structures", "/", SubDir(a), "CID_", n, ext);
    match a
    case Sdf2d => assert "structures" + "/" + "sdf2d" + "/" + "CID_" == "structures/sdf2d/CID_";
    case Sdf3d => assert "structures" + "/" + "sdf3d" + "/" + "CID_" == "structures/sdf3d/CID_";
    case Png => assert "structures" + "/" + "png" + "/" + "CID_" == "structures/png/CID_";
  }

  // ---------------------------------------------------------------------------
  // The plan per row
  // ---------------------------------------------------------------------------

  datatype Mode = Missing | All | Backfill2d

  /** A row of the selection: the structure columns read with
      `COALESCE(..., 0)` and `COALESCE(..., '')`. */
  datatype Candidate = Candidate(
    phytoId: int, cid: int, has2d: Flag, has3d: Flag, sdf2d: string, sdf3d: string, png: string)

  /** The selection row of a phytochemical with a `cid` and a structure row. */
  function CandidateOf(s: StructureRecord, phytoId: int, cid: int): Candidate {
    Candidate(phytoId, cid, s.has2d, s.has3d, s.sdf2dPath.GetOr(""), s.sdf3dPath.GetOr(""), s.png2dPath.GetOr(""))
  }

  /** The rows the query returns: every phytochemical that has a `cid` and a
      structure row, once, in increasing `cid` order. */
  predicate Selected(db: Db, rows: seq<Candidate>) {
    && (forall i, j :: 0 <= i < j < |rows| ==> rows[i].cid < rows[j].cid)
    && (forall i :: 0 <= i < |rows| ==>
          var id := rows[i].phytoId;
          && id in db.phytochemicals && db.phytochemicals[id].cid == Some(rows[i].cid)
          && id in db.structures && rows[i] == CandidateOf(db.structures[id], id, rows[i].cid))
    && (forall id :: id in db.phytochemicals && db.phytochemicals[id].cid.Some? && id in db.structures ==>
          exists i :: 0 <= i < |rows| && rows[i].phytoId == id)
  }

  /** Selected rows name distinct phytochemicals. */
  lemma SelectedDistinct(db: Db, rows: seq<Candidate>, i: nat, j: nat)
    requires Selected(db, rows) && i < |rows| && j < |rows| && i != j
    ensures rows[i].phytoId != rows[j].phytoId
  {
    if i < j {
      assert rows[i].cid < rows[j].cid;
    } else {
      assert rows[j].cid < rows[i].cid;
    }
  }

  /** `--limit`: a positive limit keeps that many leading rows. */
  function Limit(rows: seq<Candidate>, limit: int): (r: seq<Candidate>)
    ensures limit > 0 ==> |r| == (if limit < |rows| then limit else |rows|)
    ensures limit <= 0 ==> r == rows
    ensures r <= rows
  {
    if limit > 0 && limit < |rows| then rows[..limit] else rows
  }

  /** Which downloads a row gets; `Skip` is the backfill mode's `continue`. */
  datatype Plan = Skip | Plan(sdf2d: bool, sdf3d: bool, png: bool)

  function PlanRow(mode: Mode, c: Candidate): (p: Plan)
    ensures p.Skip? <==> mode == Backfill2d && c.has3d == 0
    ensures p.Plan? && p.sdf3d ==> mode != Backfill2d && (mode == All || c.has3d == 1)
    ensures p.Plan? && mode != All ==>
      (p.sdf2d <==> c.sdf2d == "") && (p.png <==> c.png == "") && (p.sdf3d ==> c.sdf3d == "")
    ensures mode == All ==> p == Plan(true, true, true)
  {
    var force := mode == All;
    var need2d := force || c.sdf2d == "";
    var need3d := force || c.sdf3d == "";
    var needPng := force || c.png == "";
    if mode == Backfill2d then
      if c.has3d == 0 then Skip
      else Plan(c.sdf2d == "", false, c.png == "")
    else
      Plan(need2d, need3d && (c.has3d == 1 || force), needPng)
  }

  /** The missing mode fetches an artifact exactly when its path is empty, and
      the 3D record only for compounds flagged as having one. */
  lemma MissingPlan(c: Candidate)
    ensures PlanRow(Missing, c) == Plan(c.sdf2d == "", c.sdf3d == "" && c.has3d == 1, c.png == "")
  {
  }

  // ---------------------------------------------------------------------------
  // One row
  // ---------------------------------------------------------------------------

  /** The structure row after recording a saved artifact: a path plus, for the
      SDF records, the matching flag; a depiction sets only its path. */
  function Record(s: StructureRecord, a: Artifact, rel: string): (t: StructureRecord)
    ensures StructureGrows(s, t)
    ensures a == Sdf2d ==> t == s.(has2d := 1, sdf2dPath := Some(rel))
    ensures a == Sdf3d ==> t == s.(has3d := 1, sdf3dPath := Some(rel))
    ensures a == Png ==> t == s.(png2dPath := Some(rel))
  {
    match a
    case Sdf2d => s.(has2d := 1, sdf2dPath := Some(rel))
    case Sdf3d => s.(has3d := 1, sdf3dPath := Some(rel))
    case Png => s.(png2dPath := Some(rel))
  }

  /** The tables and files after one artifact's download; the UPDATE touches
      nothing when the phytochemical has no structure row. */
  datatype Got = Got(structures: map<int, StructureRecord>, files: Files, outcome: Outcome)

  function Get(structures: map<int, StructureRecord>, files: Files, out: Path, a: Artifact,
               c: Candidate, server: Server): (r: Got)
    ensures r.outcome == Saved <==> SavedBy(server(a, c.cid))
    ensures r.outcome == Raised <==> RaisedBy(server(a, c.cid))
    ensures r.files == Download(files, Render(DestOf(out, a, c.cid)), server(a, c.cid), Retries).files
    ensures r.structures.Keys == structures.Keys && StructuresGrow(structures, r.structures)
    ensures forall p :: p in structures && p != c.phytoId ==> r.structures[p] == structures[p]
    ensures c.phytoId in structures && r.outcome == Saved ==>
      r.structures[c.phytoId] == Record(structures[c.phytoId], a, RelToStatic(DestOf(out, a, c.cid)))
    ensures c.phytoId in structures && r.outcome != Saved ==> r.structures[c.phytoId] == structures[c.phytoId]
  {
    var dest := DestOf(out, a, c.cid);
    var d := Download(files, Render(dest), server(a, c.cid), Retries);
    if d.outcome == Saved && c.phytoId in structures then
      Got(structures[c.phytoId := Record(structures[c.phytoId], a, RelToStatic(dest))], d.files, Saved)
    else Got(structures, d.files, d.outcome)
  }

  /** The tables and files after a row, which artifacts were saved, and
      whether an uncaught error ended the run during it. */
  datatype RowRun = RowRun(structures: map<int, StructureRecord>, files: Files,
                           got2d: bool, got3d: bool, gotPng: bool, raised: bool)

  /** `t` is `s` after recording the artifacts saved for `cid`: each saved SDF
      record sets its path and flag, a saved depiction only its path, and
      nothing else changes. */
  predicate RowEffect(s: StructureRecord, t: StructureRecord, out: Path, cid: int, got2d: bool, got3d: bool, gotPng: bool) {
    && t.has2d == (if got2d then 1 else s.has2d)
    && t.sdf2dPath == (if got2d then Some(RelToStatic(DestOf(out, Sdf2d, cid))) else s.sdf2dPath)
    && t.has3d == (if got3d then 1 else s.has3d)
    && t.sdf3dPath == (if got3d then Some(RelToStatic(DestOf(out, Sdf3d, cid))) else s.sdf3dPath)
    && t.png2dPath == (if gotPng then Some(RelToStatic(DestOf(out, Png, cid))) else s.png2dPath)
  }

  /** The downloads of a planned row, in the order 2D, 3D, PNG. */
  function ProcessRow(structures: map<int, StructureRecord>, files: Files, out: Path,
                      c: Candidate, p2: bool, p3: bool, pp: bool, server: Server): (r: RowRun)
    ensures r.structures.Keys == structures.Keys && StructuresGrow(structures, r.structures)
    ensures forall q :: q in structures && q != c.phytoId ==> r.structures[q] == structures[q]
    ensures r.raised <==>
      (p2 && RaisedBy(server(Sdf2d, c.cid))) || (p3 && RaisedBy(server(Sdf3d, c.cid))) || (pp && RaisedBy(server(Png, c.cid)))
    ensures r.got2d <==> p2 && SavedBy(server(Sdf2d, c.cid))
    ensures r.got3d <==> p3 && !(p2 && RaisedBy(server(Sdf2d, c.cid))) && SavedBy(server(Sdf3d, c.cid))
    ensures r.gotPng <==>
      pp && !(p2 && RaisedBy(server(Sdf2d, c.cid))) && !(p3 && RaisedBy(server(Sdf3d, c.cid)))
      && SavedBy(server(Png, c.cid))
    ensures c.phytoId in structures ==>
      RowEffect(structures[c.phytoId], r.structures[c.phytoId], out, c.cid, r.got2d, r.got3d, r.gotPng)
  {
    var g2 := Stage(structures, files, out, Sdf2d, c, p2, server);
    var b2 := g2.outcome == Saved;
    if g2.outcome == Raised then RowRun(g2.structures, g2.files, false, false, false, true)
    else
      var rest := ProcessRest(g2.structures, g2.files, out, c, p3, pp, server);
      GrowsTransitive(structures, g2.structures, rest.structures);
      StagesEffect(structures, c.phytoId, out, c.cid, b2, rest.got3d, rest.gotPng);
      RowRun(rest.structures, rest.files, b2, rest.got3d, rest.gotPng, rest.raised)
  }

  /** Recording the three stages in order has the effect `RowEffect` describes. */
  lemma StagesEffect(structures: map<int, StructureRecord>, id: int, out: Path, cid: int, b2: bool, b3: bool, bp: bool)
    ensures id in structures ==>
      var s := structures[id];
      RowEffect(s, RecordIf(RecordIf(RecordIf(s, Sdf2d, b2, out, cid), Sdf3d, b3, out, cid), Png, bp, out, cid),
                out, cid, b2, b3, bp)
  {
  }

  /** The 3D and PNG downloads of a row whose 2D stage did not raise. */
  function ProcessRest(structures: map<int, StructureRecord>, files: Files, out: Path,
                       c: Candidate, p3: bool, pp: bool, server: Server): (r: RowRun)
    ensures r.structures.Keys == structures.Keys && StructuresGrow(structures, r.structures)
    ensures forall q :: q in structures && q != c.phytoId ==> r.structures[q] == structures[q]
    ensures r.raised <==> (p3 && RaisedBy(server(Sdf3d, c.cid))) || (pp && RaisedBy(server(Png, c.cid)))
    ensures !r.got2d
    ensures r.got3d <==> p3 && SavedBy(server(Sdf3d, c.cid))
    ensures r.gotPng <==> pp && !(p3 && RaisedBy(server(Sdf3d, c.cid))) && SavedBy(server(Png, c.cid))
    ensures c.phytoId in structures ==>
      var s, t := structures[c.phytoId], r.structures[c.phytoId];
      t == RecordIf(RecordIf(s, Sdf3d, r.got3d, out, c.cid), Png, r.gotPng, out, c.cid)
  {
    var g3 := Stage(structures, files, out, Sdf3d, c, p3, server);
    var b3 := g3.outcome == Saved;
    if g3.outcome == Raised then RowRun(g3.structures, g3.files, false, false, false, true)
    else
      var gp := Stage(g3.structures, g3.files, out, Png, c, pp, server);
      GrowsTransitive(structures, g3.structures, gp.structures);
      RowRun(gp.structures, gp.files, false, b3, gp.outcome == Saved, gp.outcome == Raised)
  }

  /** One artifact's download when the plan asks for it; nothing otherwise. */
  function Stage(structures: map<int, StructureRecord>, files: Files, out: Path, a: Artifact,
                 c: Candidate, planned: bool, server: Server): (r: Got)
    ensures r.outcome == Saved <==> planned && SavedBy(server(a, c.cid))
    ensures r.outcome == Raised <==> planned && RaisedBy(server(a, c.cid))
    ensures r.structures.Keys == structures.Keys && StructuresGrow(structures, r.structures)
    ensures forall p :: p in structures && p != c.phytoId ==> r.structures[p] == structures[p]
    ensures c.phytoId in structures ==>
      r.structures[c.phytoId] == RecordIf(structures[c.phytoId], a, r.outcome == Saved, out, c.cid)
  {
    if planned then Get(structures, files, out, a, c, server) else Got(structures, files, Failed)
  }

  /** The row after recording `a` when it was saved. */
  function RecordIf(s: StructureRecord, a: Artifact, saved: bool, out: Path, cid: int): StructureRecord {
    if saved then Record(s, a, RelToStatic(DestOf(out, a, cid))) else s
  }

  // ---------------------------------------------------------------------------
  // The run
  // ---------------------------------------------------------------------------

  /** The per-run counters the script reports. */
  datatype Counts = Counts(attempted: nat, ok2d: nat, ok3d: nat, okpng: nat)

  /** An uncaught error ends the run while processing this row. */
  predicate RowRaises(mode: Mode, c: Candidate, server: Server) {
    match PlanRow(mode, c)
    case Skip => false
    case Plan(p2, p3, pp) =>
      (p2 && RaisedBy(server(Sdf2d, c.cid))) || (p3 && RaisedBy(server(Sdf3d, c.cid))) || (pp && RaisedBy(server(Png, c.cid)))
  }

  /** The plan asks for `a`. */
  predicate Wanted(p: Plan, a: Artifact) {
    match p
    case Skip => false
    case Plan(p2, p3, pp) => match a case Sdf2d => p2 case Sdf3d => p3 case Png => pp
  }

  /** In a run that does not abort, the row saves `a`: planned, and some attempt succeeded. */
  predicate Obtains(mode: Mode, c: Candidate, server: Server, a: Artifact) {
    Wanted(PlanRow(mode, c), a) && SavedBy(server(a, c.cid))
  }

  /** The loop's state: the working tables, the tables as last committed, the
      files and the counters. */
  datatype Progress = Progress(structures: map<int, StructureRecord>, committed: map<int, StructureRecord>,
                               files: Files, counts: Counts)

  /** The tables that persist (everything when the run completes; the last
      commit when it aborts), the files, the counters and whether it aborted. */
  datatype BatchResult = BatchResult(structures: map<int, StructureRecord>, files: Files, counts: Counts, aborted: bool)

  /** The committed tables are a stage the working tables grew from. */
  predicate Consistent(st: Progress) {
    && st.committed.Keys == st.structures.Keys
    && StructuresGrow(st.committed, st.structures)
    && st.counts.ok2d <= st.counts.attempted && st.counts.ok3d <= st.counts.attempted
    && st.counts.okpng <= st.counts.attempted
  }

  /** The loop state after one row, and whether the row raised; a raised
      row leaves its files behind and nothing else. */
  datatype Advanced = Advanced(next: Progress, raised: bool)

  function Advance(mode: Mode, out: Path, server: Server, st: Progress, c: Candidate): (r: Advanced)
    requires Consistent(st)
    ensures r.raised <==> RowRaises(mode, c, server)
    ensures !r.raised ==>
      && Consistent(r.next)
      && r.next.counts.attempted == st.counts.attempted + 1
      && r.next.structures.Keys == st.structures.Keys
      && StructuresGrow(st.structures, r.next.structures)
      && StructuresGrow(st.committed, r.next.committed)
      && (r.next.committed == st.committed || r.next.committed == r.next.structures)
    ensures !r.raised && PlanRow(mode, c).Skip? ==> r.next == st.(counts := r.next.counts)
    ensures !r.raised ==> forall q :: q in st.structures && q != c.phytoId ==> r.next.structures[q] == st.structures[q]
    ensures !r.raised && c.phytoId in st.structures ==>
      RowEffect(st.structures[c.phytoId], r.next.structures[c.phytoId], out, c.cid,
                Obtains(mode, c, server, Sdf2d), Obtains(mode, c, server, Sdf3d), Obtains(mode, c, server, Png))
  {
    var n := st.counts.attempted + 1;
    match PlanRow(mode, c)
    case Skip =>
      Advanced(st.(counts := st.counts.(attempted := n)), false)
    case Plan(p2, p3, pp) =>
      AdvancePlanned(out, server, st, c, p2, p3, pp)
  }

  /** The downloads of a planned row, the counters, and the commit after
      every fiftieth row. */
  function AdvancePlanned(out: Path, server: Server, st: Progress, c: Candidate, p2: bool, p3: bool, pp: bool): (r: Advanced)
    requires Consistent(st)
    ensures r.raised <==>
      (p2 && RaisedBy(server(Sdf2d, c.cid))) || (p3 && RaisedBy(server(Sdf3d, c.cid))) || (pp && RaisedBy(server(Png, c.cid)))
    ensures !r.raised ==>
      && Consistent(r.next)
      && r.next.counts.attempted == st.counts.attempted + 1
      && r.next.structures.Keys == st.structures.Keys
      && StructuresGrow(st.structures, r.next.structures)
      && StructuresGrow(st.committed, r.next.committed)
      && (r.next.committed == st.committed || r.next.committed == r.next.structures)
    ensures !r.raised ==> forall q :: q in st.structures && q != c.phytoId ==> r.next.structures[q] == st.structures[q]
    ensures !r.raised && c.phytoId in st.structures ==>
      RowEffect(st.structures[c.phytoId], r.next.structures[c.phytoId], out, c.cid,
                p2 && SavedBy(server(Sdf2d, c.cid)), p3 && SavedBy(server(Sdf3d, c.cid)), pp && SavedBy(server(Png, c.cid)))
  {
    var n := st.counts.attempted + 1;
    var rr := ProcessRow(st.structures, st.files, out, c, p2, p3, pp, server);
    if rr.raised then Advanced(st.(files := rr.files), true)
    else
      var counts := Counts(n, st.counts.ok2d + (if rr.got2d then 1 else 0),
                           st.counts.ok3d + (if rr.got3d then 1 else 0),
                           st.counts.okpng + (if rr.gotPng then 1 else 0));
      GrowsTransitive(st.committed, st.structures, rr.structures);
      var committed := Commit(n, st.committed, rr.structures);
      Advanced(Progress(rr.structures, committed, rr.files, counts), false)
  }

  /** The tables as committed after row `n`: the working tables on every
      fiftieth row, the previous commit otherwise. */
  function Commit(n: int, committed: map<int, StructureRecord>, structures: map<int, StructureRecord>): (r: map<int, StructureRecord>)
    requires StructuresGrow(committed, structures)
    ensures StructuresGrow(committed, r) && StructuresGrow(r, structures)
  {
    if n % 50 == 0 then structures
    else
      assert StructuresGrow(committed, committed) by {
        forall p | p in committed ensures StructureGrows(committed[p], committed[p]) { }
      }
      committed
  }

  function RunRows(mode: Mode, out: Path, server: Server, st: Progress, rows: seq<Candidate>): (r: BatchResult)
    requires Consistent(st)
    ensures r.structures.Keys == st.structures.Keys && StructuresGrow(st.committed, r.structures)
    ensures r.aborted <==> exists i :: 0 <= i < |rows| && RowRaises(mode, rows[i], server)
    ensures !r.aborted ==> r.counts.attempted == st.counts.attempted + |rows| && StructuresGrow(st.structures, r.structures)
    ensures r.counts.ok2d <= r.counts.attempted && r.counts.ok3d <= r.counts.attempted
    ensures r.counts.okpng <= r.counts.attempted
    decreases |rows|
  {
    if rows == [] then BatchResult(st.structures, st.files, st.counts, false)
    else
      assert forall i :: 1 <= i < |rows| ==> rows[1..][i - 1] == rows[i];
      var adv := Advance(mode, out, server, st, rows[0]);
      if adv.raised then BatchResult(st.committed, adv.next.files, adv.next.counts, true)
      else
        var r := RunRows(mode, out, server, adv.next, rows[1..]);
        GrowsTransitive(st.committed, adv.next.committed, r.structures);
        if r.aborted then r
        else
          GrowsTransitive(st.structures, adv.next.structures, r.structures);
          r
  }

  /** A structure row no selected row names ends as it was, whether or not the
      run aborts. */
  lemma {:induction false} RunRowsUntouched(mode: Mode, out: Path, server: Server, st: Progress,
                                            rows: seq<Candidate>, q: int)
    requires Consistent(st) && q in st.structures
    requires forall i :: 0 <= i < |rows| ==> rows[i].phytoId != q
    requires st.committed[q] == st.structures[q] || !RunRows(mode, out, server, st, rows).aborted
    ensures RunRows(mode, out, server, st, rows).structures[q] == st.structures[q]
    decreases |rows|
  {
    hide Advance;
    if rows != [] {
      assert forall i :: 0 <= i < |rows[1..]| ==> rows[1..][i] == rows[i + 1];
      var adv := Advance(mode, out, server, st, rows[0]);
      if !adv.raised {
        RunRowsUntouched(mode, out, server, adv.next, rows[1..], q);
      }
    }
  }

  /** In a run that does not abort, a row whose phytochemical no other row
      names ends with exactly the artifacts its plan asked for and the
      server delivered. */
  lemma {:induction false} RunRowsRowEffect(mode: Mode, out: Path, server: Server, st: Progress,
                                            rows: seq<Candidate>, i: nat)
    requires Consistent(st) && i < |rows| && rows[i].phytoId in st.structures
    requires forall j :: 0 <= j < |rows| && j != i ==> rows[j].phytoId != rows[i].phytoId
    requires !RunRows(mode, out, server, st, rows).aborted
    ensures var c := rows[i];
      RowEffect(st.structures[c.phytoId], RunRows(mode, out, server, st, rows).structures[c.phytoId], out, c.cid,
                Obtains(mode, c, server, Sdf2d), Obtains(mode, c, server, Sdf3d), Obtains(mode, c, server, Png))
    decreases |rows|
  {
    hide *;
    if i == 0 {
      RowEffectFirst(mode, out, server, st, rows);
    } else {
      var next := Advance(mode, out, server, st, rows[0]).next;
      RowEffectTail(mode, out, server, st, rows, i);
      RunRowsRowEffect(mode, out, server, next, rows[1..], i - 1);
      RowEffectLater(mode, out, server, st, rows, i);
    }
  }

  /** The claim for a later row holds of the rest of the run. */
  lemma RowEffectTail(mode: Mode, out: Path, server: Server, st: Progress, rows: seq<Candidate>, i: nat)
    requires Consistent(st) && 0 < i < |rows| && rows[i].phytoId in st.structures
    requires forall j :: 0 <= j < |rows| && j != i ==> rows[j].phytoId != rows[i].phytoId
    requires !RunRows(mode, out, server, st, rows).aborted
    ensures var next := Advance(mode, out, server, st, rows[0]).next;
      && Consistent(next) && i - 1 < |rows[1..]| && rows[1..][i - 1].phytoId in next.structures
      && (forall j :: 0 <= j < |rows[1..]| && j != i - 1 ==> rows[1..][j].phytoId != rows[1..][i - 1].phytoId)
      && !RunRows(mode, out, server, next, rows[1..]).aborted
  {
    RunRowsStep(mode, out, server, st, rows);
    assert rows[1..][i - 1] == rows[i];
    forall j | 0 <= j < |rows[1..]| && j != i - 1 ensures rows[1..][j].phytoId != rows[i].phytoId {
      assert rows[1..][j] == rows[j + 1];
    }
  }

  /** A later row's effect over the rest of the run is its effect over the whole run. */
  lemma RowEffectLater(mode: Mode, out: Path, server: Server, st: Progress, rows: seq<Candidate>, i: nat)
    requires Consistent(st) && 0 < i < |rows| && rows[i].phytoId in st.structures
    requires rows[0].phytoId != rows[i].phytoId
    requires !RunRows(mode, out, server, st, rows).aborted
    requires var next := Advance(mode, out, server, st, rows[0]).next; var c := rows[1..][i - 1];
      && Consistent(next) && c.phytoId in next.structures
      && RowEffect(next.structures[c.phytoId], RunRows(mode, out, server, next, rows[1..]).structures[c.phytoId],
                   out, c.cid, Obtains(mode, c, server, Sdf2d), Obtains(mode, c, server, Sdf3d), Obtains(mode, c, server, Png))
    ensures var c := rows[i];
      RowEffect(st.structures[c.phytoId], RunRows(mode, out, server, st, rows).structures[c.phytoId], out, c.cid,
                Obtains(mode, c, server, Sdf2d), Obtains(mode, c, server, Sdf3d), Obtains(mode, c, server, Png))
  {
    RunRowsStep(mode, out, server, st, rows);
    assert rows[1..][i - 1] == rows[i];
  }

  /** A run that does not abort passes its first row and continues from there. */
  lemma RunRowsStep(mode: Mode, out: Path, server: Server, st: Progress, rows: seq<Candidate>)
    requires Consistent(st) && rows != [] && !RunRows(mode, out, server, st, rows).aborted
    ensures var adv := Advance(mode, out, server, st, rows[0]);
      && !adv.raised
      && RunRows(mode, out, server, st, rows) == RunRows(mode, out, server, adv.next, rows[1..])
  {
  }

  /** The first row's effect survives the rest of a run that does not abort. */
  lemma RowEffectFirst(mode: Mode, out: Path, server: Server, st: Progress, rows: seq<Candidate>)
    requires Consistent(st) && rows != [] && rows[0].phytoId in st.structures
    requires forall j :: 0 < j < |rows| ==> rows[j].phytoId != rows[0].phytoId
    requires !RunRows(mode, out, server, st, rows).aborted
    ensures var c := rows[0];
      RowEffect(st.structures[c.phytoId], RunRows(mode, out, server, st, rows).structures[c.phytoId], out, c.cid,
                Obtains(mode, c, server, Sdf2d), Obtains(mode, c, server, Sdf3d), Obtains(mode, c, server, Png))
  {
    var next := Advance(mode, out, server, st, rows[0]).next;
    RunRowsStep(mode, out, server, st, rows);
    assert forall j :: 0 <= j < |rows[1..]| ==> rows[1..][j].phytoId != rows[0].phytoId by {
      forall j | 0 <= j < |rows[1..]| ensures rows[1..][j].phytoId != rows[0].phytoId {
        assert rows[1..][j] == rows[j + 1];
      }
    }
    RunRowsUntouched(mode, out, server, next, rows[1..], rows[0].phytoId);
  }

  lemma GrowsTransitive(a: map<int, StructureRecord>, b: map<int, StructureRecord>, c: map<int, StructureRecord>)
    requires StructuresGrow(a, b) && StructuresGrow(b, c)
    ensures StructuresGrow(a, c)
  {
    forall p | p in a ensures p in c && StructureGrows(a[p], c[p]) {
      assert StructureGrows(a[p], b[p]) && StructureGrows(b[p], c[p]);
    }
  }

  /** The whole script after the selection and `--limit`: all rows in order,
      committing every fiftieth processed row and once at the end. */
  function RunBatch(mode: Mode, out: Path, server: Server, structures: map<int, StructureRecord>,
                    files: Files, rows: seq<Candidate>): (r: BatchResult)
    ensures r.structures.Keys == structures.Keys && StructuresGrow(structures, r.structures)
    ensures r.aborted <==> exists i :: 0 <= i < |rows| && RowRaises(mode, rows[i], server)
    ensures !r.aborted ==> r.counts.attempted == |rows|
    ensures r.counts.ok2d <= r.counts.attempted && r.counts.ok3d <= r.counts.attempted
    ensures r.counts.okpng <= r.counts.attempted
  {
    RunRows(mode, out, server, Progress(structures, structures, files, Counts(0, 0, 0, 0)), rows)
  }

  /** Rows the selection does not name keep their structure row, whether or
      not the run aborts. */
  lemma RunBatchUntouched(mode: Mode, out: Path, server: Server, structures: map<int, StructureRecord>,
                          files: Files, rows: seq<Candidate>, q: int)
    requires q in structures && forall i :: 0 <= i < |rows| ==> rows[i].phytoId != q
    ensures RunBatch(mode, out, server, structures, files, rows).structures[q] == structures[q]
  {
    RunRowsUntouched(mode, out, server, Progress(structures, structures, files, Counts(0, 0, 0, 0)), rows, q);
  }

  /** The per-row outcome of a whole run that does not abort. */
  lemma RunBatchRowEffect(mode: Mode, out: Path, server: Server, structures: map<int, StructureRecord>,
                          files: Files, rows: seq<Candidate>, i: nat)
    requires i < |rows| && rows[i].phytoId in structures
    requires forall j :: 0 <= j < |rows| && j != i ==> rows[j].phytoId != rows[i].phytoId
    requires !RunBatch(mode, out, server, structures, files, rows).aborted
    ensures var c := rows[i];
      RowEffect(structures[c.phytoId], RunBatch(mode, out, server, structures, files, rows).structures[c.phytoId],
                out, c.cid, Obtains(mode, c, server, Sdf2d), Obtains(mode, c, server, Sdf3d), Obtains(mode, c, server, Png))
  {
    RunRowsRowEffect(mode, out, server, Progress(structures, structures, files, Counts(0, 0, 0, 0)), rows, i);
  }

  /** A recorded path is never empty, so a recorded artifact is never
      planned again by the `missing` mode. */
  lemma RelToStaticNonEmpty(out: Path, a: Artifact, cid: int)
    ensures RelToStatic(DestOf(out, a, cid)) != ""
  {
    hide Join, IntToString, NatToString, IndexOf, RelToStatic, Slashes;
    var parts := DestOf(out, a, cid).parts;
    var name := FileName(a, cid);
    assert parts[|parts| - 1] == name && name[0] == 'C';
    if "static" in parts {
      var i := IndexOf(parts, "static");
      RelToStaticAt(DestOf(out, a, cid), i);
      assert parts[|parts| - 2] == SubDir(a);
      assert SubDir(a) != "static" by { assert SubDir(a)[1] != 't'; }
      assert i < |parts| - 2;
      var after := parts[i + 1..];
      assert after[|after| - 1] == name;
      JoinCoversLast(after, "/");
    } else {
      JoinCoversLast(parts, out.sep);
    }
  }

  /** After a row in the `missing` mode has obtained everything its plan asked for,
      planning the updated row again asks for nothing. */
  lemma MissingSettles(s: StructureRecord, t: StructureRecord, out: Path, server: Server, id: int, cid: int)
    requires var c := CandidateOf(s, id, cid);
      RowEffect(s, t, out, cid, Obtains(Missing, c, server, Sdf2d), Obtains(Missing, c, server, Sdf3d),
                Obtains(Missing, c, server, Png))
    requires forall a: Artifact :: Wanted(PlanRow(Missing, CandidateOf(s, id, cid)), a) ==> SavedBy(server(a, cid))
    ensures PlanRow(Missing, CandidateOf(t, id, cid)) == Plan(false, false, false)
  {
    RelToStaticNonEmpty(out, Sdf2d, cid);
    RelToStaticNonEmpty(out, Sdf3d, cid);
    RelToStaticNonEmpty(out, Png, cid);
  }
}
