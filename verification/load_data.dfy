/** The spreadsheet loader: cell normalisers, header unification, and the
    per-row rules that fill the spice, phytochemical, link and structure
    tables. Reading the workbook is not modelled; a sheet arrives as header
    names and rows of cells, `None` standing for an empty cell. */
module LoadData {
  import opened Wrappers
  import opened Text
  import opened Store
  import opened Positions

  // ---------------------------------------------------------------------------
  // Cell normalisers
  // ---------------------------------------------------------------------------

  /** The cell texts that read as a true flag. */
  const TrueSet: set<string> := {"yes", "y", "1", "true", "-"}

  /** The cell texts that read as "no compound id". */
  const CidSentinels: set<string> := {"na", "nil", "-", ""}

  /** Header normalisation: whitespace runs collapsed, trimmed, lowercased.
      The result is the lowercased words of the header joined by single
      spaces, so it is in normal form and lowercase. */
  function NormCol(c: string): (r: string)
    ensures r == Lower(Join(Words(c), " "))
    ensures Squeezed(r) && IsLower(r)
  {
    StripOfCollapse(c);
    LowerKeepsSqueezed(Strip(Collapse(c)));
    LowerIsLower(Strip(Collapse(c)));
    Lower(Strip(Collapse(c)))
  }

  lemma NormColIdempotent(c: string)
    ensures NormCol(NormCol(c)) == NormCol(c)
  {
    var t := NormCol(c);
    SqueezedFixed(t);
    LowerOfLower(t);
  }

  /** A name cell: `None` for an empty or all-whitespace cell, otherwise the
      words of the cell joined by single spaces. */
  function CleanName(x: Option<string>): (r: Option<string>)
    ensures r.None? <==> x.None? || AllSpace(x.value)
    ensures r.Some? ==> r.value == Join(Words(x.value), " ") && Squeezed(r.value)
  {
    match x
    case None => None
    case Some(s) =>
      var t := Collapse(Strip(s));
      CollapseOfStrip(s);
      JoinWordsSqueezed(Words(s));
      if t == [] then None else Some(t)
  }

  lemma CleanNameIdempotent(x: Option<string>)
    ensures CleanName(CleanName(x)) == CleanName(x)
  {
    if CleanName(x).Some? {
      var t := CleanName(x).value;
      SqueezedFixed(t);
      CollapseOfStrip(t);
    }
  }

  /** A flag cell: 1 exactly for the true tokens, read without the padding
      and lowercased; an empty cell is 0. */
  function ToBool(x: Option<string>): (r: Flag)
    ensures x.None? ==> r == 0
    ensures forall p, t, q :: x == Some(p + t + q) && AllSpace(p) && AllSpace(q) && Trimmed(t) ==>
      (r == 1 <==> Lower(t) in TrueSet)
  {
    match x
    case None => 0
    case Some(s) =>
      StripCore(s);
      if Lower(Strip(s)) in TrueSet then 1 else 0
  }

  /** Padding and letter case do not change a flag. */
  lemma ToBoolNormalises(p: string, s: string, q: string)
    requires AllSpace(p) && AllSpace(q)
    ensures ToBool(Some(p + Lower(s) + q)) == ToBool(Some(s))
  {
    StripIgnoresPadding(p, Lower(s), q);
    StripLower(s);
    LowerIsLower(Strip(s));
    LowerOfLower(Lower(Strip(s)));
  }

  /** A flag column that the workbook stores as numbers arrives as "1.0",
      which is not a true token. */
  lemma ToBoolFloatOne()
    ensures ToBool(Some("1.0")) == 0
  {
    var s := "1.0";
    assert Trimmed(s);
    StripTrimmed(s);
    assert Lower(s) == s by {
      assert LowerChar(s[0]) == s[0] && LowerChar(s[1]) == s[1] && LowerChar(s[2]) == s[2];
    }
    assert |s| == 3 && s[0] == '1' && s != "yes";
  }

  /** Length of the longest decimal-digit prefix. */
  function DigitRun(s: string): (k: nat)
    ensures k <= |s| && forall i :: 0 <= i < k ==> IsDigit(s[i])
    ensures k == |s| || !IsDigit(s[k])
    ensures AllDigits(s) ==> k == |s|
  {
    if s == [] || !IsDigit(s[0]) then 0 else 1 + DigitRun(s[1..])
  }

  /** A decimal literal `[+-]digits[.digits]` with at least one digit, truncated
      toward zero; `None` for anything else. */
  function DecimalValue(s: string): (r: Option<int>)
    ensures AllDigits(s) && s != [] ==> r == Some(DigitsValue(s))
  {
    var signed := |s| > 0 && (s[0] == '-' || s[0] == '+');
    var body := if signed then s[1..] else s;
    var k := DigitRun(body);
    assert AllDigits(body[..k]);
    var magnitude: int := DigitsValue(body[..k]);
    var whole := if s != [] && s[0] == '-' then -magnitude else magnitude;
    var rest := body[k..];
    assert AllDigits(s) && s != [] ==> !signed && body == s && k == |s| && body[..k] == s && rest == [] by {
      if AllDigits(s) && s != [] {
        assert IsDigit(s[0]);
      }
    }
    if rest == [] then
      (if k > 0 then Some(whole) else None)
    else if rest[0] == '.' && AllDigits(rest[1..]) && (k > 0 || |rest| > 1) then Some(whole)
    else None
  }

  /** A compound-id cell: `None` when empty, a sentinel, or not a number;
      otherwise the number read from the cell without its padding, so a
      padded digit string is its decimal value. */
  function ParseCid(v: Option<string>): (r: Option<int>)
    ensures v.None? ==> r.None?
    ensures forall p, t, q :: v == Some(p + t + q) && AllSpace(p) && AllSpace(q) && Trimmed(t) ==>
      && (Lower(t) in CidSentinels ==> r.None?)
      && (Lower(t) !in CidSentinels ==> r == DecimalValue(t))
      && (t != [] && AllDigits(t) ==> r == Some(DigitsValue(t)))
  {
    match v
    case None => None
    case Some(raw) =>
      var s := Strip(raw);
      StripCore(raw);
      DigitsNotSentinel(s);
      if Lower(s) in CidSentinels then None else DecimalValue(s)
  }

  /** A text that starts with a digit lowercases to no sentinel. */
  lemma DigitLeadNotSentinel(t: string)
    requires t != [] && IsDigit(t[0])
    ensures Lower(t) !in CidSentinels
  {
    var l := Lower(t);
    assert l[0] == t[0];
    assert l != "na" && l != "nil" && l != "-" && l != "" by {
      assert l[0] != 'n' && l[0] != '-';
    }
  }

  /** A digit string is no sentinel. */
  lemma DigitsNotSentinel(t: string)
    ensures t != [] && AllDigits(t) ==> Lower(t) !in CidSentinels
  {
    if t != [] && AllDigits(t) {
      assert IsDigit(t[0]);
      DigitLeadNotSentinel(t);
    }
  }

  /** Decimal rendering read back, with any padding: `parse_cid(str(n)) == n`. */
  lemma ParseCidRoundTrip(p: string, n: nat, q: string)
    requires AllSpace(p) && AllSpace(q)
    ensures ParseCid(Some(p + NatToString(n) + q)) == Some(n)
  {
    var t := NatToString(n);
    assert Trimmed(t) by {
      assert IsDigit(t[0]) && IsDigit(t[|t| - 1]);
    }
    StripPadded(p, t, q);
    NatToStringRoundTrip(n);
    DigitLeadNotSentinel(t);
  }

  /** A fractional part is truncated away: `int(float("d.e")) == int(d)`. */
  lemma DecimalWithFraction(d: string, e: string)
    requires d != [] && AllDigits(d) && AllDigits(e)
    ensures DecimalValue(d + "." + e) == Some(DigitsValue(d))
  {
    var s := d + "." + e;
    assert IsDigit(s[0]);
    assert s[..|d|] == d;
    assert DigitRun(s) == |d| by {
      assert forall i :: 0 <= i < |d| ==> IsDigit(s[i]) by {
        forall i | 0 <= i < |d| ensures IsDigit(s[i]) {
          assert s[i] == d[i];
        }
      }
      assert s[|d|] == '.';
      DigitRunAt(s, |d|);
    }
    assert s[|d|..][1..] == e;
  }

  /** A digit string with a fraction, read as a cell, is its integer part. */
  lemma ParseCidFraction(d: string, e: string)
    requires d != [] && AllDigits(d) && e != [] && AllDigits(e)
    ensures ParseCid(Some(d + "." + e)) == Some(DigitsValue(d))
  {
    var s := d + "." + e;
    assert Trimmed(s) by {
      assert IsDigit(s[0]) && s[|s| - 1] == e[|e| - 1];
    }
    StripTrimmed(s);
    DecimalWithFraction(d, e);
    DigitLeadNotSentinel(s);
  }

  /** The text a numeric cell gives in a column with empty cells: `n` followed
      by ".0" still reads as `n`. */
  lemma ParseCidFloatCell(n: nat)
    ensures ParseCid(Some(NatToString(n) + ".0")) == Some(n)
  {
    var d := NatToString(n);
    assert d + ".0" == d + "." + "0";
    ParseCidFraction(d, "0");
    NatToStringRoundTrip(n);
  }

  /** The digit run is the unique cut its contract describes. */
  lemma DigitRunAt(s: string, k: nat)
    requires k <= |s| && (forall i :: 0 <= i < k ==> IsDigit(s[i])) && (k == |s| || !IsDigit(s[k]))
    ensures DigitRun(s) == k
  {
    var j := DigitRun(s);
    if j < k {
      assert false;
    } else if j > k {
      assert false;
    }
  }

  // ---------------------------------------------------------------------------
  // Header unification
  // ---------------------------------------------------------------------------

  /** `s` begins with `p`. */
  predicate StartsWith(s: string, p: string) {
    |p| <= |s| && s[..|p|] == p
  }

  /** What `Scrub` makes of one character. */
  function ScrubChar(c: char): string {
    if c == '\U{FEFF}' || c == '\U{200B}' then [] else if c == '\U{A0}' then " " else [c]
  }

  /** Deletes byte-order marks and zero-width spaces; a no-break space becomes
      a plain space; every other character is kept, in order. */
  function Scrub(s: string): (r: string)
    ensures |r| <= |s|
    ensures forall i :: 0 <= i < |r| ==> r[i] != '\U{FEFF}' && r[i] != '\U{200B}' && r[i] != '\U{A0}'
    ensures (forall i :: 0 <= i < |s| ==> s[i] != '\U{FEFF}' && s[i] != '\U{200B}' && s[i] != '\U{A0}') ==> r == s
    ensures |s| == 1 ==> r == ScrubChar(s[0])
  {
    if s == [] then []
    else ScrubChar(s[0]) + Scrub(s[1..])
  }

  /** Scrubbing works character by character: it distributes over concatenation. */
  lemma {:induction false} ScrubConcat(a: string, b: string)
    ensures Scrub(a + b) == Scrub(a) + Scrub(b)
    decreases |a|
  {
    if a != [] {
      assert (a + b)[0] == a[0] && (a + b)[1..] == a[1..] + b;
      ScrubConcat(a[1..], b);
    } else {
      assert a + b == b;
    }
  }

  /** The lookup key of a header: normalised, scrubbed, then normalised again. */
  function ColumnKey(c: string): string {
    Strip(Collapse(Scrub(NormCol(c))))
  }

  /** The known header spellings and the canonical column each stands for,
      as an association list with distinct keys. */
  const ColMap: seq<(string, string)> := [
    ("spices", "spice_name"),
    ("spice", "spice_name"),
    ("spices name", "spice_name"),
    ("spice name", "spice_name"),
    ("botanical", "botanical_name"),
    ("botanical name", "botanical_name"),
    ("botanical name(s)", "botanical_name"),
    ("botanacial", "botanical_name"),
    ("botanacial name", "botanical_name"),
    ("phytochemical", "phyto_name"),
    ("phytochemical name", "phyto_name"),
    ("phytochemical names", "phyto_name"),
    ("phytochemicals name", "phyto_name"),
    ("phyto chemical", "phyto_name"),
    ("phyto chemical name", "phyto_name"),
    ("phyto chemicals", "phyto_name"),
    ("phyto chemicals name", "phyto_name"),
    ("phtochemicals name", "phyto_name"),
    ("phtochemical name", "phyto_name"),
    ("phtochemical names", "phyto_name"),
    ("pytochemical", "phyto_name"),
    ("cid", "cid"),
    ("2d", "has_2d"),
    ("3d", "has_3d"),
    ("2d conformer", "has_2d"),
    ("3d conformer", "has_3d")]

  /** The canonical column a key is an alias of, if it is one. */
  function Lookup(table: seq<(string, string)>, key: string): (r: Option<string>)
    ensures r.Some? <==> exists e :: e in table && e.0 == key
    ensures r.Some? ==> (key, r.value) in table
  {
    if table == [] then None
    else if table[0].0 == key then Some(table[0].1)
    else Lookup(table[1..], key)
  }

  /** The canonical columns, in the order the loader reads them. */
  const RequiredCols: seq<string> := ["spice_name", "botanical_name", "phyto_name", "cid", "has_2d", "has_3d"]

  /** A header's name after unification, or `None` when the column is dropped
      because its normalised name starts with "unnamed". */
  function Target(c: string): Option<string> {
    if StartsWith(NormCol(c), "unnamed") then None
    else
      var key := ColumnKey(c);
      match Lookup(ColMap, key)
      case Some(canonical) => Some(canonical)
      case None => Some(key)
  }

  /** The unified name of every header, `None` for a dropped one. */
  function Targets(header: seq<string>): (names: seq<Option<string>>)
    ensures |names| == |header|
  {
    seq(|header|, i requires 0 <= i < |header| => Target(header[i]))
  }

  /** Some kept column unifies to `name`. */
  predicate Provides(names: seq<Option<string>>, name: string) {
    exists i :: 0 <= i < |names| && names[i] == Some(name)
  }

  /** The first column that unifies to `name`. */
  function FirstColumn(names: seq<Option<string>>, name: string): (i: nat)
    requires Provides(names, name)
    ensures i < |names| && names[i] == Some(name)
    ensures forall j :: 0 <= j < i ==> names[j] != Some(name)
  {
    if names[0] == Some(name) then 0
    else
      assert Provides(names[1..], name) by {
        var i :| 0 <= i < |names| && names[i] == Some(name);
        assert names[1..][i - 1] == names[i];
      }
      1 + FirstColumn(names[1..], name)
  }

  /** The required names that no kept column provides, in order. */
  function MissingCols(required: seq<string>, names: seq<Option<string>>): (m: seq<string>)
    ensures forall c :: c in m <==> c in required && !Provides(names, c)
    ensures |m| <= |required|
  {
    if required == [] then []
    else (if Provides(names, required[0]) then [] else [required[0]]) + MissingCols(required[1..], names)
  }

  /** Entry `k` of `sel` is the first column that unifies to the `k`th required name. */
  predicate Selects(names: seq<Option<string>>, sel: seq<nat>, k: nat)
    requires k < |RequiredCols| && k < |sel|
  {
    && sel[k] < |names|
    && names[sel[k]] == Some(RequiredCols[k])
    && (forall j :: 0 <= j < sel[k] ==> names[j] != Some(RequiredCols[k]))
  }

  /** Unifies a sheet's header. On success, the column each required name is
      read from: the first kept column whose unified name it is; on failure,
      the required names no kept column provides. */
  function UnifyColumns(header: seq<string>): (r: Result<seq<nat>, seq<string>>)
    ensures r.Failure? <==> exists c :: c in RequiredCols && !Provides(Targets(header), c)
    ensures r.Failure? ==> r.error != []
    ensures r.Failure? ==> forall c :: c in r.error <==> c in RequiredCols && !Provides(Targets(header), c)
    ensures r.Success? ==> |r.value| == |RequiredCols|
    ensures r.Success? ==> forall k :: 0 <= k < |RequiredCols| ==> Selects(Targets(header), r.value, k)
  {
    var names := Targets(header);
    var missing := MissingCols(RequiredCols, names);
    if missing != [] then
      assert missing[0] in missing;
      Failure(missing)
    else
      NoneMissing(names);
      Success(Selection(names))
  }

  /** With nothing missing, every required name is provided. */
  lemma NoneMissing(names: seq<Option<string>>)
    requires MissingCols(RequiredCols, names) == []
    ensures forall k :: 0 <= k < |RequiredCols| ==> Provides(names, RequiredCols[k])
  {
    forall k | 0 <= k < |RequiredCols| ensures Provides(names, RequiredCols[k]) {
      assert RequiredCols[k] in RequiredCols;
    }
  }

  /** The first providing column of each required name. */
  function Selection(names: seq<Option<string>>): (sel: seq<nat>)
    requires forall k :: 0 <= k < |RequiredCols| ==> Provides(names, RequiredCols[k])
    ensures |sel| == |RequiredCols|
    ensures forall k :: 0 <= k < |RequiredCols| ==> Selects(names, sel, k)
  {
    var sel := seq(|RequiredCols|, k requires 0 <= k < |RequiredCols| => FirstColumn(names, RequiredCols[k]));
    assert forall k :: 0 <= k < |RequiredCols| ==> Selects(names, sel, k) by {
      forall k | 0 <= k < |RequiredCols| ensures Selects(names, sel, k) {
        assert sel[k] == FirstColumn(names, RequiredCols[k]);
      }
    }
    sel
  }

  /** A column whose normalised name starts with "unnamed" is never read. */
  lemma UnnamedNeverRead(header: seq<string>, k: nat)
    requires UnifyColumns(header).Success? && k < |RequiredCols|
    ensures !StartsWith(NormCol(header[UnifyColumns(header).value[k]]), "unnamed")
  {
  }

  // ---------------------------------------------------------------------------
  // Rows
  // ---------------------------------------------------------------------------

  /** A row after cleaning, with both names present. */
  datatype Row = Row(spice: string, botanical: Option<string>, phyto: string, cid: Option<int>, has2d: Flag, has3d: Flag)

  /** A cell of a raw row; a row shorter than the header reads as empty. */
  function Cell(raw: seq<Option<string>>, j: nat): Option<string> {
    if j < |raw| then raw[j] else None
  }

  /** Cleans the selected cells; `None` for a row dropped for a missing name. */
  function CleanRow(raw: seq<Option<string>>, sel: seq<nat>): (r: Option<Row>)
    requires |sel| == |RequiredCols|
    ensures r.None? <==> CleanName(Cell(raw, sel[0])).None? || CleanName(Cell(raw, sel[2])).None?
    ensures r.Some? ==>
      && r.value.spice != [] && Squeezed(r.value.spice)
      && r.value.phyto != [] && Squeezed(r.value.phyto)
      && Some(r.value.spice) == CleanName(Cell(raw, sel[0]))
      && r.value.botanical == CleanName(Cell(raw, sel[1]))
      && Some(r.value.phyto) == CleanName(Cell(raw, sel[2]))
      && r.value.cid == ParseCid(Cell(raw, sel[3]))
      && r.value.has2d == ToBool(Cell(raw, sel[4]))
      && r.value.has3d == ToBool(Cell(raw, sel[5]))
  {
    var spice := CleanName(Cell(raw, sel[0]));
    var phyto := CleanName(Cell(raw, sel[2]));
    if spice.None? || phyto.None? then None
    else
      Some(Row(spice.value, CleanName(Cell(raw, sel[1])), phyto.value,
               ParseCid(Cell(raw, sel[3])), ToBool(Cell(raw, sel[4])), ToBool(Cell(raw, sel[5]))))
  }

  /** Which raw rows survive cleaning, position by position. */
  function KeptFlags(raws: seq<seq<Option<string>>>, sel: seq<nat>): (f: seq<bool>)
    requires |sel| == |RequiredCols|
    ensures |f| == |raws| && forall i :: 0 <= i < |raws| ==> f[i] == CleanRow(raws[i], sel).Some?
  {
    seq(|raws|, i requires 0 <= i < |raws| => CleanRow(raws[i], sel).Some?)
  }

  /** The positions of the rows that survive cleaning: exactly those, each
      once, in sheet order. */
  function Kept(raws: seq<seq<Option<string>>>, sel: seq<nat>): (ix: seq<nat>)
    requires |sel| == |RequiredCols|
    ensures Increasing(ix)
    ensures forall j :: 0 <= j < |ix| ==> ix[j] < |raws| && CleanRow(raws[ix[j]], sel).Some?
    ensures forall i :: 0 <= i < |raws| && CleanRow(raws[i], sel).Some? ==> i in ix
  {
    Where(KeptFlags(raws, sel))
  }

  /** The kept rows of a sheet: the cleaned form of each surviving raw row,
      in sheet order, and nothing else. */
  function CleanRows(raws: seq<seq<Option<string>>>, sel: seq<nat>): (rows: seq<Row>)
    requires |sel| == |RequiredCols|
    ensures |rows| == |Kept(raws, sel)|
    ensures forall j :: 0 <= j < |rows| ==> Some(rows[j]) == CleanRow(raws[Kept(raws, sel)[j]], sel)
    ensures |rows| <= |raws|
    ensures forall r :: r in rows ==> r.spice != [] && r.phyto != []
    decreases |raws|
  {
    if raws == [] then []
    else
      var head := CleanRow(raws[0], sel);
      var rest := CleanRows(raws[1..], sel);
      RowsCons(raws, sel, rest);
      (if head.Some? then [head.value] else []) + rest
  }

  /** The kept positions of a sheet with one more raw row in front. */
  lemma {:induction false} KeptCons(raws: seq<seq<Option<string>>>, sel: seq<nat>)
    requires |sel| == |RequiredCols| && |raws| > 0
    ensures Kept(raws, sel) ==
      (if CleanRow(raws[0], sel).Some? then [0] else []) + Shift(Kept(raws[1..], sel))
  {
    assert KeptFlags(raws, sel)[1..] == KeptFlags(raws[1..], sel);
  }

  /** Rows that follow the tail's kept positions, with the head row in front
      when it is kept, follow the whole sheet's kept positions. */
  lemma {:induction false} RowsCons(raws: seq<seq<Option<string>>>, sel: seq<nat>, rest: seq<Row>)
    requires |sel| == |RequiredCols| && |raws| > 0
    requires |rest| == |Kept(raws[1..], sel)|
    requires forall j :: 0 <= j < |rest| ==> Some(rest[j]) == CleanRow(raws[1..][Kept(raws[1..], sel)[j]], sel)
    ensures var head := CleanRow(raws[0], sel);
      var rows := (if head.Some? then [head.value] else []) + rest;
      |rows| == |Kept(raws, sel)| && forall j :: 0 <= j < |rows| ==> Some(rows[j]) == CleanRow(raws[Kept(raws, sel)[j]], sel)
  {
    KeptCons(raws, sel);
    hide *;
    var tail := Kept(raws[1..], sel);
    var xs := Cleaned(raws, sel);
    assert xs[1..] == Cleaned(raws[1..], sel);
    PickShift(xs, tail, rest);
  }

  /** Every raw row, cleaned. */
  function Cleaned(raws: seq<seq<Option<string>>>, sel: seq<nat>): (xs: seq<Option<Row>>)
    requires |sel| == |RequiredCols|
    ensures |xs| == |raws| && forall i :: 0 <= i < |raws| ==> xs[i] == CleanRow(raws[i], sel)
  {
    seq(|raws|, i requires 0 <= i < |raws| => CleanRow(raws[i], sel))
  }

  // ---------------------------------------------------------------------------
  // The loader's store
  // ---------------------------------------------------------------------------

  /** The store as the loader sees it: the tables, the next ids the
      AUTOINCREMENT keys hand out, and the UNIQUE index on `cid`. */
  datatype Loader = Loader(db: Db, nextSpice: int, nextPhyto: int, cidIndex: map<int, int>)

  /** Phytochemical ids lie below the counter and the `cid` index agrees with
      the table both ways. */
  predicate GoodPhytos(phytochemicals: map<int, Phytochemical>, nextPhyto: int, cidIndex: map<int, int>) {
    && (forall id :: id in phytochemicals ==> id < nextPhyto)
    && (forall c :: c in cidIndex ==> cidIndex[c] in phytochemicals && phytochemicals[cidIndex[c]].cid == Some(c))
    && (forall id :: id in phytochemicals && phytochemicals[id].cid.Some? ==>
          phytochemicals[id].cid.value in cidIndex && cidIndex[phytochemicals[id].cid.value] == id)
  }

  predicate Good(st: Loader) {
    && GoodPhytos(st.db.phytochemicals, st.nextPhyto, st.cidIndex)
    && (forall n :: n in st.db.spices ==> st.db.spices[n].id < st.nextSpice)
  }

  /** How `a` may become `b` during a load: nothing is removed, no compound id
      changes, the index only grows, and structure rows only grow. */
  predicate Extends(a: Loader, b: Loader) {
    && (forall id :: id in a.db.phytochemicals ==>
          id in b.db.phytochemicals && b.db.phytochemicals[id].cid == a.db.phytochemicals[id].cid)
    && (forall c :: c in a.cidIndex ==> c in b.cidIndex && b.cidIndex[c] == a.cidIndex[c])
    && (forall n :: n in a.db.spices ==> n in b.db.spices && b.db.spices[n] == a.db.spices[n])
    && a.db.links <= b.db.links
    && StructuresGrow(a.db.structures, b.db.structures)
  }

  lemma ExtendsTransitive(a: Loader, b: Loader, c: Loader)
    requires Extends(a, b) && Extends(b, c)
    ensures Extends(a, c)
  {
    forall p | p in a.db.structures ensures p in c.db.structures && StructureGrows(a.db.structures[p], c.db.structures[p]) {
      assert StructureGrows(a.db.structures[p], b.db.structures[p]);
      assert StructureGrows(b.db.structures[p], c.db.structures[p]);
    }
  }

  /** The phytochemical table, counter and index after resolving a row's
      phytochemical, and its id. */
  datatype Resolved = Resolved(
    phytochemicals: map<int, Phytochemical>, nextPhyto: int, cidIndex: map<int, int>, phytoId: int)

  /** The phytochemical of a row: the one holding the row's `cid` (its name
      filled in when blank), a new one holding the `cid`, or, without a `cid`,
      always a new one. */
  function ResolvePhyto(st: Loader, row: Row): (r: Resolved)
    requires Good(st)
    ensures GoodPhytos(r.phytochemicals, r.nextPhyto, r.cidIndex)
    ensures r.phytoId in r.phytochemicals && r.nextPhyto >= st.nextPhyto
    ensures forall id :: id in st.db.phytochemicals ==>
      id in r.phytochemicals && r.phytochemicals[id].cid == st.db.phytochemicals[id].cid
    ensures forall c :: c in st.cidIndex ==> c in r.cidIndex && r.cidIndex[c] == st.cidIndex[c]
    ensures row.cid.Some? ==> row.cid.value in r.cidIndex && r.cidIndex[row.cid.value] == r.phytoId
    ensures row.cid.Some? && row.cid.value in st.cidIndex ==> r.phytoId == st.cidIndex[row.cid.value]
    ensures row.cid.None? ==> r.phytoId !in st.db.phytochemicals && r.phytochemicals[r.phytoId].cid.None?
    ensures r.phytoId !in st.db.phytochemicals ==> r.phytochemicals[r.phytoId].name == row.phyto
    ensures r.phytochemicals.Keys == st.db.phytochemicals.Keys + {r.phytoId}
    ensures forall id :: id in st.db.phytochemicals && id != r.phytoId ==>
      r.phytochemicals[id] == st.db.phytochemicals[id]
    ensures r.phytoId in st.db.phytochemicals ==>
      var prev := st.db.phytochemicals[r.phytoId];
      r.phytochemicals[r.phytoId] == prev.(name := if Strip(prev.name) == [] then row.phyto else prev.name)
  {
    var phytos := st.db.phytochemicals;
    match row.cid
    case Some(c) =>
      if c in st.cidIndex then
        var id := st.cidIndex[c];
        var p := phytos[id];
        Resolved(if Strip(p.name) == [] then phytos[id := p.(name := row.phyto)] else phytos,
                 st.nextPhyto, st.cidIndex, id)
      else
        assert st.nextPhyto !in phytos;
        Resolved(phytos[st.nextPhyto := Phytochemical(row.phyto, Some(c))],
                 st.nextPhyto + 1, st.cidIndex[c := st.nextPhyto], st.nextPhyto)
    case None =>
      assert st.nextPhyto !in phytos;
      Resolved(phytos[st.nextPhyto := Phytochemical(row.phyto, None)],
               st.nextPhyto + 1, st.cidIndex, st.nextPhyto)
  }

  /** The result of loading one row: the store afterwards and the row's phytochemical. */
  datatype Step = Step(st: Loader, phytoId: int)

  /** What loading leaves true of each row: the row's phytochemical exists, is
      the one its `cid` indexes (or, without a `cid`, is new and has none), is
      linked to the row's spice, and has a structure row with flags at least
      the row's. */
  predicate RowLoaded(st: Loader, end: Loader, row: Row, id: int) {
    && id in end.db.phytochemicals
    && (row.cid.Some? ==> row.cid.value in end.cidIndex && end.cidIndex[row.cid.value] == id)
    && (row.cid.None? ==> id !in st.db.phytochemicals && end.db.phytochemicals[id].cid.None?)
    && row.spice in end.db.spices && (end.db.spices[row.spice].id, id) in end.db.links
    && id in end.db.structures
    && end.db.structures[id].has2d >= row.has2d && end.db.structures[id].has3d >= row.has3d
  }

  /** `INSERT OR IGNORE` of a structure row followed by the `MAX` update of both flags. */
  function RaiseFlags(structures: map<int, StructureRecord>, id: int, has2d: Flag, has3d: Flag): (r: map<int, StructureRecord>)
    ensures r.Keys == structures.Keys + {id}
    ensures StructuresGrow(structures, r)
    ensures r[id].has2d == (if id in structures then Max(structures[id].has2d, has2d) else has2d)
    ensures r[id].has3d == (if id in structures then Max(structures[id].has3d, has3d) else has3d)
    ensures id in structures ==> r[id] == structures[id].(has2d := r[id].has2d, has3d := r[id].has3d)
    ensures id !in structures ==> r[id] == NoStructure.(has2d := has2d, has3d := has3d)
    ensures forall p :: p in structures && p != id ==> r[p] == structures[p]
  {
    if id in structures then
      var s := structures[id];
      structures[id := s.(has2d := Max(s.has2d, has2d), has3d := Max(s.has3d, has3d))]
    else structures[id := StructureRecord(has2d, has3d, None, None, None)]
  }

  /** One row: insert-or-ignore the spice; resolve the phytochemical; link the
      two; insert the structure row or raise its flags. */
  function LoadRow(st: Loader, row: Row): (r: Step)
    requires Good(st)
    ensures Good(r.st) && Extends(st, r.st)
    ensures RowLoaded(st, r.st, row, r.phytoId)
    ensures row.cid.Some? && row.cid.value in st.cidIndex ==> r.phytoId == st.cidIndex[row.cid.value]
    ensures row.spice !in st.db.spices ==> r.st.db.spices[row.spice].botanicalName == row.botanical
    ensures r.st.db.links == st.db.links + {(r.st.db.spices[row.spice].id, r.phytoId)}
    ensures forall p :: p in st.db.structures && p != r.phytoId ==> r.st.db.structures[p] == st.db.structures[p]
    ensures r.st.db.descriptors == st.db.descriptors
  {
    var db := st.db;
    var added := row.spice !in db.spices;
    var spices := if added then db.spices[row.spice := Spice(st.nextSpice, row.botanical)] else db.spices;
    var nextSpice := if added then st.nextSpice + 1 else st.nextSpice;
    var spiceId := spices[row.spice].id;
    var res := ResolvePhyto(st, row);
    var structures := RaiseFlags(db.structures, res.phytoId, row.has2d, row.has3d);
    var db' := Db(spices, res.phytochemicals, db.links + {(spiceId, res.phytoId)}, structures, db.descriptors);
    Step(Loader(db', nextSpice, res.nextPhyto, res.cidIndex), res.phytoId)
  }

  /** The store after a sequence of rows and the phytochemical of each row. */
  datatype Run = Run(st: Loader, ids: seq<int>)

  function LoadRows(st: Loader, rows: seq<Row>): (r: Run)
    requires Good(st)
    ensures Good(r.st) && Extends(st, r.st)
    ensures |r.ids| == |rows|
    ensures rows == [] ==> r.st == st
    decreases |rows|
  {
    if rows == [] then Run(st, [])
    else
      var step := LoadRow(st, rows[0]);
      var rest := LoadRows(step.st, rows[1..]);
      ExtendsTransitive(st, step.st, rest.st);
      Run(rest.st, [step.phytoId] + rest.ids)
  }

  /** The run over a non-empty sheet is the first row's step followed by the rest. */
  lemma LoadRowsUnfold(st: Loader, rows: seq<Row>)
    requires Good(st) && rows != []
    ensures var step := LoadRow(st, rows[0]); var rest := LoadRows(step.st, rows[1..]);
      LoadRows(st, rows) == Run(rest.st, [step.phytoId] + rest.ids)
  {
    hide LoadRow;
  }

  /** Row `i` of a non-empty sheet: the first row's step, or row `i - 1` of the rest. */
  lemma LoadRowsCons(st: Loader, rows: seq<Row>, i: nat)
    requires Good(st) && i < |rows|
    ensures var step := LoadRow(st, rows[0]); var rest := LoadRows(step.st, rows[1..]);
      var r := LoadRows(st, rows);
      && r.st == rest.st
      && r.ids[i] == (if i == 0 then step.phytoId else rest.ids[i - 1])
      && (i > 0 ==> rows[1..][i - 1] == rows[i])
  {
    hide LoadRow;
    var step := LoadRow(st, rows[0]);
    var rest := LoadRows(step.st, rows[1..]);
    LoadRowsUnfold(st, rows);
    ConsAt(step.phytoId, rest.ids, i);
    if i > 0 { ConsAt(rows[0], rows[1..], i); }
  }

  /** Indexing into a sequence with one element put in front. */
  lemma ConsAt<T>(x: T, s: seq<T>, i: nat)
    requires i <= |s|
    ensures ([x] + s)[i] == if i == 0 then x else s[i - 1]
  {
  }

  /** Extending the store afterwards keeps a row loaded. */
  lemma RowLoadedExtends(st: Loader, mid: Loader, end: Loader, row: Row, id: int)
    requires RowLoaded(st, mid, row, id) && Extends(mid, end)
    ensures RowLoaded(st, end, row, id)
  {
    var c := row.cid;
    assert c.Some? ==> c.value in mid.cidIndex && mid.cidIndex[c.value] == id;
    assert StructureGrows(mid.db.structures[id], end.db.structures[id]);
    assert end.db.spices[row.spice] == mid.db.spices[row.spice];
    if row.cid.None? {
      assert end.db.phytochemicals[id].cid == mid.db.phytochemicals[id].cid;
    } else {
      var k := c.value;
      assert k in mid.cidIndex;
      assert forall x :: x in mid.cidIndex ==> x in end.cidIndex && end.cidIndex[x] == mid.cidIndex[x];
      assert k in end.cidIndex;
    }
  }

  lemma {:induction false} LoadRowsLoaded(st: Loader, rows: seq<Row>, i: nat)
    requires Good(st) && i < |rows|
    ensures RowLoaded(st, LoadRows(st, rows).st, rows[i], LoadRows(st, rows).ids[i])
    decreases |rows|
  {
    hide LoadRow;
    var next := LoadRow(st, rows[0]).st;
    if i == 0 {
      LoadRowsLoadedFirst(st, rows);
    } else {
      LoadRowsLoaded(next, rows[1..], i - 1);
      LoadRowsLoadedRest(st, rows, i);
    }
  }

  /** The first row stays loaded through the rest of the run. */
  lemma LoadRowsLoadedFirst(st: Loader, rows: seq<Row>)
    requires Good(st) && 0 < |rows|
    ensures RowLoaded(st, LoadRows(st, rows).st, rows[0], LoadRows(st, rows).ids[0])
  {
    hide LoadRow;
    var step := LoadRow(st, rows[0]);
    LoadRowsCons(st, rows, 0);
    RowLoadedExtends(st, step.st, LoadRows(step.st, rows[1..]).st, rows[0], step.phytoId);
  }

  /** A later row loaded by the run after the first row is loaded by the whole run. */
  lemma LoadRowsLoadedRest(st: Loader, rows: seq<Row>, i: nat)
    requires Good(st) && 0 < i < |rows|
    requires var next := LoadRow(st, rows[0]).st; var rest := LoadRows(next, rows[1..]);
      RowLoaded(next, rest.st, rows[1..][i - 1], rest.ids[i - 1])
    ensures RowLoaded(st, LoadRows(st, rows).st, rows[i], LoadRows(st, rows).ids[i])
  {
    hide LoadRow;
    var next := LoadRow(st, rows[0]).st;
    LoadRowsCons(st, rows, i);
    assert rows[i].cid.None? ==> LoadRows(next, rows[1..]).ids[i - 1] !in st.db.phytochemicals;
  }

  /** A row without a `cid` gets a phytochemical no other row gets. */
  lemma NoCidFresh(st: Loader, rows: seq<Row>, i: nat, j: nat)
    requires Good(st) && i < |rows| && j < |rows| && i != j && rows[i].cid.None?
    ensures LoadRows(st, rows).ids[i] != LoadRows(st, rows).ids[j]
  {
    hide LoadRow;
    if i < j {
      FreshBeforeLater(st, rows, i, j);
    } else {
      FreshAfterEarlier(st, rows, j, i);
    }
  }

  /** No later row lands on the phytochemical a cid-less row created. */
  lemma {:induction false} FreshBeforeLater(st: Loader, rows: seq<Row>, i: nat, j: nat)
    requires Good(st) && i < j < |rows| && rows[i].cid.None?
    ensures LoadRows(st, rows).ids[i] != LoadRows(st, rows).ids[j]
    decreases i
  {
    hide LoadRow;
    if i == 0 {
      NoCidFreshFirst(st, rows, j);
    } else {
      var next := LoadRow(st, rows[0]).st;
      ConsAt(rows[0], rows[1..], i);
      FreshBeforeLater(next, rows[1..], i - 1, j - 1);
      NoCidFreshRest(st, rows, i, j);
    }
  }

  /** A cid-less row never lands on the phytochemical of an earlier row. */
  lemma {:induction false} FreshAfterEarlier(st: Loader, rows: seq<Row>, j: nat, i: nat)
    requires Good(st) && j < i < |rows| && rows[i].cid.None?
    ensures LoadRows(st, rows).ids[i] != LoadRows(st, rows).ids[j]
    decreases j
  {
    hide LoadRow;
    if j == 0 {
      NoCidFreshLater(st, rows, i);
    } else {
      var next := LoadRow(st, rows[0]).st;
      ConsAt(rows[0], rows[1..], i);
      FreshAfterEarlier(next, rows[1..], j - 1, i - 1);
      NoCidFreshRest(st, rows, i, j);
    }
  }

  /** Distinct ids in the run after the first row are distinct ids of the whole run. */
  lemma NoCidFreshRest(st: Loader, rows: seq<Row>, i: nat, j: nat)
    requires Good(st) && 0 < i < |rows| && 0 < j < |rows|
    requires var next := LoadRow(st, rows[0]).st;
      LoadRows(next, rows[1..]).ids[i - 1] != LoadRows(next, rows[1..]).ids[j - 1]
    ensures LoadRows(st, rows).ids[i] != LoadRows(st, rows).ids[j]
  {
    hide LoadRow;
    LoadRowsCons(st, rows, i);
    LoadRowsCons(st, rows, j);
  }

  /** A cid-less later row creates a phytochemical the first row cannot have landed on. */
  lemma NoCidFreshLater(st: Loader, rows: seq<Row>, i: nat)
    requires Good(st) && 0 < i < |rows| && rows[i].cid.None?
    ensures LoadRows(st, rows).ids[0] != LoadRows(st, rows).ids[i]
  {
    hide LoadRow;
    var step := LoadRow(st, rows[0]);
    var r := LoadRows(st, rows);
    LoadRowsCons(st, rows, 0);
    LoadRowsCons(st, rows, i);
    LoadRowsLoaded(step.st, rows[1..], i - 1);
    assert r.ids[i] !in step.st.db.phytochemicals;
  }

  /** A later row never lands on the fresh phytochemical a cid-less first row created. */
  lemma NoCidFreshFirst(st: Loader, rows: seq<Row>, j: nat)
    requires Good(st) && 0 < j < |rows| && rows[0].cid.None?
    ensures LoadRows(st, rows).ids[0] != LoadRows(st, rows).ids[j]
  {
    hide LoadRow;
    var step := LoadRow(st, rows[0]);
    var r := LoadRows(st, rows);
    LoadRowsCons(st, rows, 0);
    LoadRowsCons(st, rows, j);
    LoadRowsLoaded(step.st, rows[1..], j - 1);
    LoadRowsLoaded(st, rows, 0);
    if rows[j].cid.Some? {
      var c := rows[j].cid.value;
      assert r.st.db.phytochemicals[r.ids[j]].cid == Some(c);
    } else {
      assert r.ids[j] !in step.st.db.phytochemicals;
    }
  }

  /** Rows that share a compound id end on the same phytochemical. */
  lemma SameCidSameId(st: Loader, rows: seq<Row>, i: nat, j: nat)
    requires Good(st) && i < |rows| && j < |rows|
    requires rows[i].cid.Some? && rows[i].cid == rows[j].cid
    ensures LoadRows(st, rows).ids[i] == LoadRows(st, rows).ids[j]
  {
    hide LoadRow;
    LoadRowsLoaded(st, rows, i);
    LoadRowsLoaded(st, rows, j);
  }

  // ---------------------------------------------------------------------------
  // The sheet step as written
  // ---------------------------------------------------------------------------

  /** `Series.map(parse_cid)` over a column that mixes compound ids with
      `None` yields floats with NaN for the missing ones; NaN is not `None`,
      so the first kept row without an id reaches `int(cid)`, which raises.
      The conversion happens before rows are dropped, so every raw row of the
      sheet counts for the first half, and only kept rows for the second. */
  predicate NaNCrash(raws: seq<seq<Option<string>>>, sel: seq<nat>)
    requires |sel| == |RequiredCols|
  {
    && (exists i :: 0 <= i < |raws| && ParseCid(Cell(raws[i], sel[3])).Some?)
    && (exists j :: 0 <= j < |raws| && CleanRow(raws[j], sel).Some? && CleanRow(raws[j], sel).value.cid.None?)
  }

  /** One sheet as the script runs it: `None` when the sheet raises, which
      also loses its uncommitted rows; otherwise the corrected run. */
  function LoadSheetAsWritten(st: Loader, raws: seq<seq<Option<string>>>, sel: seq<nat>): (r: Option<Run>)
    requires Good(st) && |sel| == |RequiredCols|
    ensures r.None? <==> NaNCrash(raws, sel)
    ensures r.Some? ==> r.value == LoadRows(st, CleanRows(raws, sel))
  {
    if NaNCrash(raws, sel) then None else Some(LoadRows(st, CleanRows(raws, sel)))
  }

  /** A sheet with a compound id in one row and a kept row without one:
      the script raises on it, while the corrected step loads the id-less row
      as a phytochemical of its own. */
  lemma MixedSheetAborts(st: Loader, raws: seq<seq<Option<string>>>, sel: seq<nat>, i: nat, j: nat)
    requires Good(st) && |sel| == |RequiredCols| && i < |raws| && j < |raws|
    requires ParseCid(Cell(raws[i], sel[3])).Some?
    requires CleanRow(raws[j], sel).Some? && CleanRow(raws[j], sel).value.cid.None?
    ensures LoadSheetAsWritten(st, raws, sel).None?
    ensures var rows := CleanRows(raws, sel); var run := LoadRows(st, rows);
      exists k :: 0 <= k < |rows| && rows[k] == CleanRow(raws[j], sel).value
        && RowLoaded(st, run.st, rows[k], run.ids[k]) && run.ids[k] !in st.db.phytochemicals
  {
    assert NaNCrash(raws, sel);
    var rows := CleanRows(raws, sel);
    var k := KeptAt(raws, sel, j);
    hide *;
    var run := LoadRows(st, rows);
    LoadRowsLoaded(st, rows, k);
    assert rows[k] == CleanRow(raws[j], sel).value;
    assert RowLoaded(st, run.st, rows[k], run.ids[k]) && run.ids[k] !in st.db.phytochemicals;
  }

  /** A kept raw row is one of the cleaned rows. */
  lemma KeptAt(raws: seq<seq<Option<string>>>, sel: seq<nat>, j: nat) returns (k: nat)
    requires |sel| == |RequiredCols| && j < |raws| && CleanRow(raws[j], sel).Some?
    ensures k < |CleanRows(raws, sel)| && Some(CleanRows(raws, sel)[k]) == CleanRow(raws[j], sel)
  {
    var ix := Kept(raws, sel);
    assert j in ix;
    k :| 0 <= k < |ix| && ix[k] == j;
  }

  // ---------------------------------------------------------------------------
  // Sheets
  // ---------------------------------------------------------------------------

  datatype Sheet = Sheet(header: seq<string>, rows: seq<seq<Option<string>>>)

  /** The store after the load (or after the last sheet committed before a
      header was rejected), the missing columns of the rejected sheet if any,
      and the number of rows processed. */
  datatype Loaded = Loaded(st: Loader, missing: Option<seq<string>>, rowsProcessed: nat)

  /** The header provides every required column. */
  predicate Unifies(header: seq<string>) {
    UnifyColumns(header).Success?
  }

  /** Which sheets have headers that unify, sheet by sheet. */
  function HeaderFlags(sheets: seq<Sheet>): (f: seq<bool>)
    ensures |f| == |sheets| && forall k :: 0 <= k < |sheets| ==> f[k] == Unifies(sheets[k].header)
  {
    seq(|sheets|, k requires 0 <= k < |sheets| => Unifies(sheets[k].header))
  }

  /** How many sheets, from the first, have headers that unify: the load
      stops at the sheet after them, if there is one. */
  function Accepted(sheets: seq<Sheet>): (n: nat)
    ensures n <= |sheets|
    ensures forall k :: 0 <= k < n ==> Unifies(sheets[k].header)
    ensures n < |sheets| ==> !Unifies(sheets[n].header)
  {
    Leading(HeaderFlags(sheets))
  }

  /** The kept rows of the first `n` sheets, all of which unify, summed. */
  function KeptRows(sheets: seq<Sheet>, n: nat): nat
    requires n <= |sheets| && forall k :: 0 <= k < n ==> Unifies(sheets[k].header)
  {
    if n == 0 then 0
    else
      assert Unifies(sheets[n - 1].header);
      KeptRows(sheets, n - 1) + |CleanRows(sheets[n - 1].rows, UnifyColumns(sheets[n - 1].header).value)|
  }

  /** Sheet by sheet; a sheet without the required columns aborts the load,
      keeping what the earlier sheets committed. The report is that sheet's
      missing columns, and the rows processed are the kept rows of the
      sheets before it. */
  function Load(st: Loader, sheets: seq<Sheet>): (r: Loaded)
    requires Good(st)
    ensures Good(r.st) && Extends(st, r.st)
    ensures r.missing.Some? <==> exists k :: 0 <= k < |sheets| && UnifyColumns(sheets[k].header).Failure?
    ensures r.missing.Some? <==> Accepted(sheets) < |sheets|
    ensures r.missing.Some? ==> r.missing.value == UnifyColumns(sheets[Accepted(sheets)].header).error
    ensures r.missing.Some? ==> r.missing.value != []
    ensures r.rowsProcessed == KeptRows(sheets, Accepted(sheets))
    ensures r.rowsProcessed <= TotalRows(sheets)
    decreases |sheets|
  {
    if sheets == [] then Loaded(st, None, 0)
    else
      match UnifyColumns(sheets[0].header)
      case Failure(missing) => RejectFirst(sheets); Loaded(st, Some(missing), 0)
      case Success(sel) =>
        hide Good, Extends;
        var rows := CleanRows(sheets[0].rows, sel);
        var run := LoadRows(st, rows);
        var rest := Load(run.st, sheets[1..]);
        ExtendsTransitive(st, run.st, rest.st);
        AcceptedRejects(sheets);
        ReportCons(sheets, rest.missing, rest.rowsProcessed, |rows|);
        Loaded(rest.st, rest.missing, |rows| + rest.rowsProcessed)
  }

  /** A first sheet that does not unify stops the load before any rows. */
  lemma {:induction false} RejectFirst(sheets: seq<Sheet>)
    requires sheets != [] && UnifyColumns(sheets[0].header).Failure?
    ensures Accepted(sheets) == 0 && KeptRows(sheets, 0) == 0
    ensures exists k :: 0 <= k < |sheets| && UnifyColumns(sheets[k].header).Failure?
  {
    assert !Unifies(sheets[0].header);
  }

  /** Fewer sheets are accepted than given iff some sheet's header fails. */
  lemma AcceptedRejects(sheets: seq<Sheet>)
    ensures Accepted(sheets) < |sheets| <==> exists k :: 0 <= k < |sheets| && UnifyColumns(sheets[k].header).Failure?
  {
    hide UnifyColumns;
    var n := Accepted(sheets);
    if exists k :: 0 <= k < |sheets| && UnifyColumns(sheets[k].header).Failure? {
      var k :| 0 <= k < |sheets| && UnifyColumns(sheets[k].header).Failure?;
      assert !Unifies(sheets[k].header);
    }
    if n < |sheets| {
      assert !Unifies(sheets[n].header);
    }
  }

  /** The report and row count of the sheets after an accepted first sheet
      are those of the whole list, with the first sheet's rows added. */
  lemma {:induction false} ReportCons(sheets: seq<Sheet>, missing: Option<seq<string>>, processed: nat, kept: nat)
    requires sheets != [] && UnifyColumns(sheets[0].header).Success?
    requires kept == |CleanRows(sheets[0].rows, UnifyColumns(sheets[0].header).value)|
    requires missing.Some? <==> Accepted(sheets[1..]) < |sheets[1..]|
    requires missing.Some? ==> missing.value == UnifyColumns(sheets[1..][Accepted(sheets[1..])].header).error
    requires processed == KeptRows(sheets[1..], Accepted(sheets[1..]))
    ensures missing.Some? <==> Accepted(sheets) < |sheets|
    ensures missing.Some? ==> missing.value == UnifyColumns(sheets[Accepted(sheets)].header).error
    ensures kept + processed == KeptRows(sheets, Accepted(sheets))
  {
    AcceptedCons(sheets);
    hide *;
    var n := Accepted(sheets[1..]);
    if n < |sheets[1..]| {
      assert sheets[Accepted(sheets)] == sheets[1..][n];
    }
  }

  /** When the first sheet unifies, the accepted sheets are it and the
      accepted sheets of the rest, and their kept rows add up accordingly. */
  lemma {:induction false} AcceptedCons(sheets: seq<Sheet>)
    requires sheets != [] && Unifies(sheets[0].header)
    ensures Accepted(sheets) == 1 + Accepted(sheets[1..])
    ensures KeptRows(sheets, Accepted(sheets)) ==
      |CleanRows(sheets[0].rows, UnifyColumns(sheets[0].header).value)| + KeptRows(sheets[1..], Accepted(sheets[1..]))
  {
    hide *;
    AcceptedStep(sheets);
    KeptRowsCons(sheets, Accepted(sheets));
  }

  lemma {:induction false} AcceptedStep(sheets: seq<Sheet>)
    requires sheets != [] && Unifies(sheets[0].header)
    ensures Accepted(sheets) == 1 + Accepted(sheets[1..])
  {
    hide Unifies, UnifyColumns, HeaderFlags;
    var f := HeaderFlags(sheets);
    assert f[1..] == HeaderFlags(sheets[1..]) by {
      forall k | 0 <= k < |sheets| - 1 ensures f[1..][k] == HeaderFlags(sheets[1..])[k] {
        assert sheets[1..][k] == sheets[k + 1];
      }
    }
  }

  /** The kept rows of the first `n` sheets: the first sheet's, then those of
      the next `n - 1`. */
  lemma {:induction false} KeptRowsCons(sheets: seq<Sheet>, n: nat)
    requires 0 < n <= |sheets| && forall k :: 0 <= k < n ==> Unifies(sheets[k].header)
    ensures forall k :: 0 <= k < n - 1 ==> Unifies(sheets[1..][k].header)
    ensures KeptRows(sheets, n) ==
      |CleanRows(sheets[0].rows, UnifyColumns(sheets[0].header).value)| + KeptRows(sheets[1..], n - 1)
  {
    hide CleanRows, UnifyColumns, Unifies;
    assert forall k :: 0 <= k < n - 1 ==> sheets[1..][k] == sheets[k + 1];
    if n > 1 {
      KeptRowsCons(sheets, n - 1);
    }
  }

  function TotalRows(sheets: seq<Sheet>): nat {
    if sheets == [] then 0 else |sheets[0].rows| + TotalRows(sheets[1..])
  }
}
