/** The one-off duplicate merge: phytochemical rows sharing a name are folded
    into one keeper row, chosen by a priority ordering, and the duplicates'
    spice links and structure row are moved onto it. */
module Dedup {
  import opened Wrappers
  import opened Store

  // ---------------------------------------------------------------------------
  // Groups and their order
  // ---------------------------------------------------------------------------

  /** The ids of the phytochemical rows named `name`. */
  function Ids(db: Db, name: string): set<int> {
    set id | id in db.phytochemicals && db.phytochemicals[id].name == name
  }

  /** `name` is among the groups `GROUP BY phyto_name HAVING COUNT(*) > 1` reports. */
  predicate Duplicated(db: Db, name: string) {
    |Ids(db, name)| > 1
  }

  /** The spices a link table relates to phytochemical `p`. */
  function SpicesOf(links: set<(int, int)>, p: int): set<int> {
    set l | l in links && l.1 == p :: l.0
  }

  /** The spices related to some phytochemical named `name`. */
  function SpicesOfName(db: Db, name: string): set<int> {
    set l | l in db.links && l.1 in Ids(db, name) :: l.0
  }

  /** The sort key of a group row: whether it has a CID, and its numbers of
      link rows and of structure rows. A link row is unique per spice, so the
      first count is the number of spices. */
  datatype Rank = Rank(hasCid: bool, spiceCount: nat, structCount: nat)

  function RankOf(db: Db, id: int): Rank {
    Rank(id in db.phytochemicals && db.phytochemicals[id].cid.Some?,
         |SpicesOf(db.links, id)|,
         if id in db.structures then 1 else 0)
  }

  /** `a` sorts strictly ahead of `b` under the three descending keys. */
  predicate Outranks(a: Rank, b: Rank) {
    || (a.hasCid && !b.hasCid)
    || (a.hasCid == b.hasCid && a.spiceCount > b.spiceCount)
    || (a.hasCid == b.hasCid && a.spiceCount == b.spiceCount && a.structCount > b.structCount)
  }

  /** The order the group query returns rows in: by rank, with ties broken
      by ascending id, an order the query itself leaves open. */
  predicate Precedes(db: Db, a: int, b: int) {
    Outranks(RankOf(db, a), RankOf(db, b)) || (RankOf(db, a) == RankOf(db, b) && a < b)
  }

  lemma PrecedesTotal(db: Db, a: int, b: int)
    requires a != b
    ensures Precedes(db, a, b) || Precedes(db, b, a)
  {
  }

  lemma PrecedesTransitive(db: Db, a: int, b: int, c: int)
    requires Precedes(db, a, b) && Precedes(db, b, c)
    ensures Precedes(db, a, c)
  {
  }

  lemma NoMemberEmpty(s: set<int>)
    requires forall y :: y !in s
    ensures s == {}
  {
    assert forall y :: y in s <==> y in {};
  }

  lemma HasMember(s: set<int>)
    requires s != {}
    ensures exists x :: x in s
  {
    if forall y :: y !in s {
      NoMemberEmpty(s);
      assert false;
    }
  }

  /** Every non-empty group has a row that precedes all the others. */
  lemma {:induction false} HasFirst(db: Db, s: set<int>)
    requires s != {}
    ensures exists m :: m in s && forall y :: y in s && y != m ==> Precedes(db, m, y)
    decreases |s|
  {
    HasMember(s);
    var x :| x in s;
    var rest := s - {x};
    if rest == {} {
      assert forall y :: y in s && y != x ==> y in rest;
    } else {
      HasFirst(db, rest);
      var m :| m in rest && forall y :: y in rest && y != m ==> Precedes(db, m, y);
      if Precedes(db, x, m) {
        forall y | y in s && y != x
          ensures Precedes(db, x, y)
        {
          if y != m {
            PrecedesTransitive(db, x, m, y);
          }
        }
      } else {
        PrecedesTotal(db, x, m);
        assert forall y :: y in s && y != m ==> Precedes(db, m, y);
      }
    }
  }

  ghost function First(db: Db, s: set<int>): (m: int)
    requires s != {}
    ensures m in s && forall y :: y in s && y != m ==> Precedes(db, m, y)
  {
    HasFirst(db, s);
    var m :| m in s && forall y :: y in s && y != m ==> Precedes(db, m, y);
    m
  }

  predicate Distinct(g: seq<int>) {
    forall i, j :: 0 <= i < j < |g| ==> g[i] != g[j]
  }

  /** The rows of a group as the query returns them: each id once, in
      `Precedes` order. */
  ghost function Order(db: Db, s: set<int>): (g: seq<int>)
    ensures Distinct(g) && (forall id :: id in g <==> id in s) && |g| == |s|
    ensures forall i, j :: 0 <= i < j < |g| ==> Precedes(db, g[i], g[j])
    decreases |s|
  {
    if s == {} then []
    else
      var m := First(db, s);
      var rest := Order(db, s - {m});
      OrderCons(db, s, m, rest);
      [m] + rest
  }

  lemma OrderCons(db: Db, s: set<int>, m: int, rest: seq<int>)
    requires m in s && forall y :: y in s && y != m ==> Precedes(db, m, y)
    requires Distinct(rest) && (forall id :: id in rest <==> id in s - {m}) && |rest| == |s - {m}|
    requires forall i, j :: 0 <= i < j < |rest| ==> Precedes(db, rest[i], rest[j])
    ensures var g := [m] + rest;
      && Distinct(g) && (forall id :: id in g <==> id in s) && |g| == |s|
      && forall i, j :: 0 <= i < j < |g| ==> Precedes(db, g[i], g[j])
  {
    var g := [m] + rest;
    assert forall i :: 0 <= i < |rest| ==> g[i + 1] == rest[i];
    forall i, j | 0 <= i < j < |g| ensures g[i] != g[j] && Precedes(db, g[i], g[j]) {
      if i == 0 {
        assert g[j] == rest[j - 1] && g[j] in rest;
      } else {
        assert g[i] == rest[i - 1] && g[j] == rest[j - 1];
      }
    }
    forall id ensures id in g <==> id in s {
      if id in g && id != m {
        var i :| 0 <= i < |g| && g[i] == id;
        assert g[i] == rest[i - 1];
      }
    }
  }

  /** The keeper, the first row of the ordered group, has a CID whenever some
      row of the group has one, and among the rows with the same CID status
      it has the most spice links. */
  lemma KeeperRanksFirst(db: Db, name: string, id: int)
    requires Ids(db, name) != {} && id in Ids(db, name)
    ensures var k := Order(db, Ids(db, name))[0];
      && (RankOf(db, id).hasCid ==> RankOf(db, k).hasCid)
      && (RankOf(db, id).hasCid == RankOf(db, k).hasCid ==> RankOf(db, id).spiceCount <= RankOf(db, k).spiceCount)
      && (id == k || Precedes(db, k, id))
  {
    var g := Order(db, Ids(db, name));
    assert id in g;
    var i :| 0 <= i < |g| && g[i] == id;
    assert i == 0 || Precedes(db, g[0], g[i]);
  }

  // ---------------------------------------------------------------------------
  // Merging one duplicate
  // ---------------------------------------------------------------------------

  /** Duplicate `d` folded into keeper `k`: its links re-pointed at the keeper
      (a link the keeper already has is dropped), its structure row re-keyed
      to the keeper when the keeper has none and deleted otherwise, and its
      phytochemical and descriptor rows deleted. */
  function MergeDup(db: Db, k: int, d: int): (r: Db)
    requires k != d
    ensures r.spices == db.spices
    ensures r.phytochemicals == db.phytochemicals - {d}
    ensures forall l :: l in r.links <==> (l in db.links && l.1 != d) || (l.1 == k && (l.0, d) in db.links)
    ensures d !in r.structures
    ensures forall p :: p in r.structures <==> (p in db.structures && p != d) || (p == k && d in db.structures)
    ensures k in db.structures ==> r.structures[k] == db.structures[k]
    ensures k !in db.structures && d in db.structures ==> r.structures[k] == db.structures[d]
    ensures forall p :: p in db.structures && p != d && p != k ==> r.structures[p] == db.structures[p]
    ensures r.descriptors == db.descriptors - {d}
  {
    var kept := set l | l in db.links && l.1 != d;
    var moved := set l | l in db.links && l.1 == d :: (l.0, k);
    var structures :=
      if d in db.structures && k !in db.structures then (db.structures - {d})[k := db.structures[d]]
      else db.structures - {d};
    db.(phytochemicals := db.phytochemicals - {d}, links := kept + moved, structures := structures,
        descriptors := db.descriptors - {d})
  }

  /** The same step as the statements run it: the connection leaves foreign
      keys off, so deleting the phytochemical row cascades nowhere. A link of a
      spice related to both rows stays behind under `UPDATE OR IGNORE`, and
      the duplicate's descriptor row stays too. */
  function MergeDupAsWritten(db: Db, k: int, d: int): (r: Db)
    requires k != d
    ensures r.phytochemicals == db.phytochemicals - {d} && r.structures == MergeDup(db, k, d).structures
    ensures forall l :: l in r.links <==>
      (l in db.links && l.1 != d) || (l.1 == k && (l.0, d) in db.links) || (l in db.links && l.1 == d && (l.0, k) in db.links)
    ensures r.descriptors == db.descriptors
  {
    var kept := set l | l in db.links && l.1 != d;
    var moved := set l | l in db.links && l.1 == d :: (l.0, k);
    var ignored := set l | l in db.links && l.1 == d && (l.0, k) in db.links;
    MergeDup(db, k, d).(links := kept + moved + ignored, descriptors := db.descriptors)
  }

  /** The statements as written leave a link naming the deleted row exactly
      when some spice is related to both the keeper and the duplicate, and
      otherwise agree with the cascading step on every link. */
  lemma AsWrittenOrphans(db: Db, k: int, d: int)
    requires k != d
    ensures var w, c := MergeDupAsWritten(db, k, d), MergeDup(db, k, d);
      && ((exists l :: l in w.links && l.1 == d) <==> exists s :: (s, d) in db.links && (s, k) in db.links)
      && (forall l :: l in w.links && l.1 != d ==> l in c.links)
      && (forall l :: l in c.links ==> l in w.links)
  {
    var w := MergeDupAsWritten(db, k, d);
    if exists s :: (s, d) in db.links && (s, k) in db.links {
      var s :| (s, d) in db.links && (s, k) in db.links;
      assert (s, d) in w.links;
    }
  }

  /** Spice 7 is related to both rows named "x"; after the statements run,
      its link to the deleted row 2 is still there, and so is row 2's
      descriptor row. */
  lemma OrphanExample()
    ensures var db := Db(map[], map[1 := Phytochemical("x", Some(5)), 2 := Phytochemical("x", None)],
                         {(7, 1), (7, 2)}, map[], map[2 := NoDescriptors]);
      var w := MergeDupAsWritten(db, 1, 2);
      2 !in w.phytochemicals && (7, 2) in w.links && 2 in w.descriptors
      && (7, 2) !in MergeDup(db, 1, 2).links
  {
  }

  // ---------------------------------------------------------------------------
  // Merging a group
  // ---------------------------------------------------------------------------

  /** The duplicates folded into the keeper one after another. */
  function MergeDups(db: Db, k: int, dups: seq<int>): Db
    requires k !in dups
    decreases |dups|
  {
    if dups == [] then db else MergeDups(MergeDup(db, k, dups[0]), k, dups[1..])
  }

  /** The first duplicate, in merge order, that has a structure row. */
  function FirstWith(structures: map<int, StructureRecord>, dups: seq<int>): (r: Option<int>)
    ensures r.None? <==> forall d :: d in dups ==> d !in structures
    ensures r.Some? ==> r.value in dups && r.value in structures
    ensures r.Some? ==> exists i :: 0 <= i < |dups| && dups[i] == r.value && forall j :: 0 <= j < i ==> dups[j] !in structures
  {
    if |dups| == 0 then None
    else if dups[0] in structures then
      var d0 := dups[0];
      assert d0 in dups && d0 in structures;
      Some(d0)
    else
      var r := FirstWith(structures, dups[1..]);
      if r.Some? then
        var i :| 0 <= i < |dups[1..]| && dups[1..][i] == r.value && forall j :: 0 <= j < i ==> dups[1..][j] !in structures;
        assert dups[i + 1] == r.value;
        r
      else r
  }

  lemma {:induction false} MergeDupsRows(db: Db, k: int, dups: seq<int>)
    requires k !in dups
    ensures var r := MergeDups(db, k, dups); var gone := set d | d in dups;
      r.spices == db.spices && r.phytochemicals == db.phytochemicals - gone && r.descriptors == db.descriptors - gone
    decreases |dups|
  {
    if dups != [] {
      var next := MergeDup(db, k, dups[0]);
      MergeDupsRows(next, k, dups[1..]);
      var gone := set d | d in dups;
      var later := set d | d in dups[1..];
      assert gone == {dups[0]} + later;
      assert next.phytochemicals - later == db.phytochemicals - gone;
      assert next.descriptors - later == db.descriptors - gone;
    }
  }

  /** After the group: a link survives unless it names a duplicate, and the
      keeper gains a link to every spice some duplicate had. */
  lemma {:induction false} MergeDupsLinks(db: Db, k: int, dups: seq<int>)
    requires k !in dups
    ensures var r := MergeDups(db, k, dups);
      forall l :: l in r.links <==> (l in db.links && l.1 !in dups) || (l.1 == k && exists d :: d in dups && (l.0, d) in db.links)
    decreases |dups|
  {
    if dups != [] {
      var next := MergeDup(db, k, dups[0]);
      MergeDupsLinks(next, k, dups[1..]);
      var r := MergeDups(db, k, dups);
      forall l
        ensures l in r.links <==> (l in db.links && l.1 !in dups) || (l.1 == k && exists d :: d in dups && (l.0, d) in db.links)
      {
        if l.1 == k && exists d :: d in dups && (l.0, d) in db.links {
          var d :| d in dups && (l.0, d) in db.links;
          if d == dups[0] {
            assert l in next.links;
          } else {
            assert d in dups[1..] && (l.0, d) in next.links;
          }
        }
        if l in r.links && l.1 == k && !(l in db.links) {
          if (l.0, dups[0]) !in db.links {
            var d :| d in dups[1..] && (l.0, d) in next.links;
            assert d in dups;
          }
        }
      }
    }
  }

  /** After the group: no structure row names a duplicate; the keeper keeps
      its own row if it had one and otherwise receives the row of the first
      duplicate that had one; every other row is untouched. */
  lemma {:induction false} MergeDupsStructures(db: Db, k: int, dups: seq<int>)
    requires k !in dups
    ensures var r := MergeDups(db, k, dups).structures; var s := db.structures;
      && (forall p :: p in r ==> p !in dups && (p in s || p == k))
      && (forall p :: p in s && p !in dups && p != k ==> p in r && r[p] == s[p])
      && (k in s ==> k in r && r[k] == s[k])
      && (k !in s ==> match FirstWith(s, dups)
                      case None => k !in r
                      case Some(d) => k in r && r[k] == s[d])
    decreases |dups|
  {
    if dups != [] {
      var next := MergeDup(db, k, dups[0]);
      MergeDupsStructures(next, k, dups[1..]);
      var s := db.structures;
      if k !in s && dups[0] !in s {
        assert next.structures == s;
        assert FirstWith(s, dups) == FirstWith(s, dups[1..]);
      }
    }
  }

  /** The query's rows for `name` merged into the first of them; with fewer
      than two rows nothing happens. */
  function MergeGroup(db: Db, g: seq<int>): Db
    requires Distinct(g)
  {
    if |g| < 2 then db
    else
      assert g[0] !in g[1..] by {
        forall j | 0 <= j < |g[1..]| ensures g[1..][j] != g[0] {
          assert g[1..][j] == g[j + 1];
        }
      }
      MergeDups(db, g[0], g[1..])
  }

  /** The group for `name` in query order, and its keeper. */
  ghost function GroupOf(db: Db, name: string): seq<int> {
    Order(db, Ids(db, name))
  }

  /** The ids of the group other than the first. */
  lemma GroupSplit(g: seq<int>, id: int)
    requires Distinct(g) && |g| >= 2
    ensures g[0] !in g[1..]
    ensures id in g <==> id == g[0] || id in g[1..]
  {
    forall j | 0 <= j < |g[1..]| ensures g[1..][j] != g[0] {
      assert g[1..][j] == g[j + 1];
    }
    assert g == [g[0]] + g[1..];
  }

  /** Merging a duplicated name leaves one row under it, the keeper, with its
      id and CID unchanged, and no other name's rows change. */
  lemma MergeGroupNames(db: Db, name: string)
    requires Duplicated(db, name)
    ensures var g := GroupOf(db, name); var r := MergeGroup(db, g);
      && Ids(r, name) == {g[0]}
      && r.phytochemicals[g[0]] == db.phytochemicals[g[0]]
      && (forall n :: n != name ==> Ids(r, n) == Ids(db, n))
      && (forall id :: id in r.phytochemicals ==> id in db.phytochemicals && r.phytochemicals[id] == db.phytochemicals[id])
  {
    hide MergeDups, MergeDup, Order;
    var g := GroupOf(db, name);
    var r := MergeGroup(db, g);
    GroupSplit(g, g[0]);
    MergeDupsRows(db, g[0], g[1..]);
    var gone := set d | d in g[1..];
    assert r.phytochemicals == db.phytochemicals - gone;
    forall id ensures id in Ids(r, name) <==> id == g[0] {
      GroupSplit(g, id);
    }
    forall n | n != name ensures Ids(r, n) == Ids(db, n) {
      forall id | id in Ids(db, n) ensures id !in gone {
        GroupSplit(g, id);
      }
    }
  }

  /** After merging a duplicated name, the keeper is related to exactly the
      spices some row of the group was related to; no link names a merged
      row; links of other phytochemicals are untouched. */
  lemma MergeGroupLinks(db: Db, name: string)
    requires Duplicated(db, name)
    ensures var g := GroupOf(db, name); var r := MergeGroup(db, g);
      && SpicesOf(r.links, g[0]) == SpicesOfName(db, name)
      && (forall l :: l in r.links ==> l.1 !in g || l.1 == g[0])
      && (forall l: (int, int) :: l.1 !in g ==> (l in r.links <==> l in db.links))
  {
    hide MergeDups, MergeDup, Order;
    var g := GroupOf(db, name);
    var k := g[0];
    var r := MergeGroup(db, g);
    GroupSplit(g, k);
    MergeDupsLinks(db, k, g[1..]);
    forall s ensures s in SpicesOf(r.links, k) <==> s in SpicesOfName(db, name) {
      if s in SpicesOfName(db, name) {
        var l :| l in db.links && l.1 in Ids(db, name) && l.0 == s;
        GroupSplit(g, l.1);
        assert (s, k) in r.links;
      }
      if s in SpicesOf(r.links, k) {
        assert (s, k) in r.links;
        if (s, k) !in db.links {
          var d :| d in g[1..] && (s, d) in db.links;
          GroupSplit(g, d);
          assert (s, d).1 in Ids(db, name);
        } else {
          assert (s, k).1 in Ids(db, name);
        }
      }
    }
    forall l | l in r.links ensures l.1 !in g || l.1 == k {
      GroupSplit(g, l.1);
    }
    forall l: (int, int) | l.1 !in g ensures l in r.links <==> l in db.links {
      GroupSplit(g, l.1);
    }
  }

  /** After merging a duplicated name: the keeper has a structure row exactly
      when some row of the group had one; it keeps its own row when it had
      one and otherwise takes the first duplicate's in query order; no merged
      row keeps a structure or descriptor row; other rows are untouched. */
  lemma MergeGroupStructures(db: Db, name: string)
    requires Duplicated(db, name)
    ensures var g := GroupOf(db, name); var k := g[0]; var r := MergeGroup(db, g);
      && ((k in r.structures) <==> exists id :: id in Ids(db, name) && id in db.structures)
      && (k in db.structures ==> r.structures[k] == db.structures[k])
      && (k !in db.structures && FirstWith(db.structures, g[1..]).Some? ==>
            r.structures[k] == db.structures[FirstWith(db.structures, g[1..]).value])
      && (forall p :: p in r.structures ==> p !in g || p == k)
      && (forall p :: p in r.descriptors ==> p !in g || p == k)
      && (forall p :: p !in g ==> (p in r.structures <==> p in db.structures))
      && (forall p :: p in db.structures && p !in g ==> r.structures[p] == db.structures[p])
  {
    hide MergeDups, MergeDup, Order;
    var g := GroupOf(db, name);
    var k := g[0];
    GroupSplit(g, k);
    MergeDupsStructures(db, k, g[1..]);
    MergeDupsRows(db, k, g[1..]);
    var r := MergeGroup(db, g);
    if exists id :: id in Ids(db, name) && id in db.structures {
      var id :| id in Ids(db, name) && id in db.structures;
      GroupSplit(g, id);
      if k !in db.structures {
        assert FirstWith(db.structures, g[1..]).Some?;
      }
    }
    if k in r.structures && k !in db.structures {
      var d := FirstWith(db.structures, g[1..]).value;
      GroupSplit(g, d);
      assert d in Ids(db, name);
    }
    forall p | p in r.structures ensures p !in g || p == k {
      GroupSplit(g, p);
    }
    forall p | p in r.descriptors ensures p !in g || p == k {
      GroupSplit(g, p);
    }
    forall p | p !in g ensures p in r.structures <==> p in db.structures {
      GroupSplit(g, p);
    }
  }

  // ---------------------------------------------------------------------------
  // The whole script
  // ---------------------------------------------------------------------------

  predicate DistinctNames(names: seq<string>) {
    forall i, j :: 0 <= i < j < |names| ==> names[i] != names[j]
  }

  /** Every duplicated name the grouping query returned, in its order, each
      group read again from the tables as they stand and merged; the script
      commits after every group. */
  ghost function FixDuplicates(db: Db, names: seq<string>): Db
    decreases |names|
  {
    if names == [] then db
    else FixDuplicates(MergeGroup(db, GroupOf(db, names[0])), names[1..])
  }

  /** The ids of a name no earlier group names are those it started with. */
  lemma NamesOthersStay(db: Db, name: string, n: string)
    requires Duplicated(db, name) && n != name
    ensures Ids(MergeGroup(db, GroupOf(db, name)), n) == Ids(db, n)
  {
    MergeGroupNames(db, name);
  }

  /** The names after the first are still distinct and still duplicated once
      the first group is merged. */
  lemma RestStillDuplicated(db: Db, names: seq<string>)
    requires names != [] && DistinctNames(names) && forall i :: 0 <= i < |names| ==> Duplicated(db, names[i])
    ensures var next := MergeGroup(db, GroupOf(db, names[0]));
      && DistinctNames(names[1..]) && names[0] !in names[1..]
      && forall i :: 0 <= i < |names[1..]| ==> Duplicated(next, names[1..][i])
  {
    var next := MergeGroup(db, GroupOf(db, names[0]));
    MergeGroupNames(db, names[0]);
    forall i | 0 <= i < |names[1..]| ensures Duplicated(next, names[1..][i]) && names[1..][i] != names[0] {
      assert names[1..][i] == names[i + 1];
    }
  }

  /** After the script, each processed name has exactly one row, a row it had
      before; every other name has the rows it had. */
  lemma {:induction false} FixLeavesOne(db: Db, names: seq<string>)
    requires DistinctNames(names) && forall i :: 0 <= i < |names| ==> Duplicated(db, names[i])
    ensures var r := FixDuplicates(db, names);
      && (forall n :: n in names ==> |Ids(r, n)| == 1 && Ids(r, n) <= Ids(db, n))
      && (forall n :: n !in names ==> Ids(r, n) == Ids(db, n))
      && (forall id :: id in r.phytochemicals ==> id in db.phytochemicals && r.phytochemicals[id] == db.phytochemicals[id])
    decreases |names|
  {
    if names != [] {
      var name := names[0];
      var next := MergeGroup(db, GroupOf(db, name));
      MergeGroupNames(db, name);
      RestStillDuplicated(db, names);
      FixLeavesOne(next, names[1..]);
      var k := GroupOf(db, name)[0];
      assert Ids(next, name) == {k} && k in Ids(db, name);
      var r := FixDuplicates(db, names);
      assert Ids(r, name) == {k};
      forall n | n in names && n != name ensures |Ids(r, n)| == 1 && Ids(r, n) <= Ids(db, n) {
        assert n in names[1..];
      }
    }
  }

  /** With the names the grouping query reports, no name is duplicated after
      the script. */
  lemma FixRemovesDuplicates(db: Db, names: seq<string>)
    requires DistinctNames(names) && forall n :: n in names <==> Duplicated(db, n)
    ensures forall n :: !Duplicated(FixDuplicates(db, names), n)
  {
    assert forall i :: 0 <= i < |names| ==> Duplicated(db, names[i]);
    FixLeavesOne(db, names);
  }

  /** The script never changes which spices contain a compound of a given
      name. */
  lemma {:induction false} FixKeepsSpicesByName(db: Db, names: seq<string>)
    requires DistinctNames(names) && forall i :: 0 <= i < |names| ==> Duplicated(db, names[i])
    ensures forall n :: SpicesOfName(FixDuplicates(db, names), n) == SpicesOfName(db, n)
    decreases |names|
  {
    if names != [] {
      var name := names[0];
      var next := MergeGroup(db, GroupOf(db, name));
      GroupStepSpices(db, name);
      MergeGroupNames(db, name);
      RestStillDuplicated(db, names);
      FixKeepsSpicesByName(next, names[1..]);
    }
  }

  /** One group's merge keeps the spices of every name. */
  lemma GroupStepSpices(db: Db, name: string)
    requires Duplicated(db, name)
    ensures forall n :: SpicesOfName(MergeGroup(db, GroupOf(db, name)), n) == SpicesOfName(db, n)
  {
    var g := GroupOf(db, name);
    var k := g[0];
    var r := MergeGroup(db, g);
    MergeGroupNames(db, name);
    MergeGroupLinks(db, name);
    forall n ensures SpicesOfName(r, n) == SpicesOfName(db, n) {
      if n == name {
        forall s ensures s in SpicesOfName(r, n) <==> s in SpicesOf(r.links, k) {
          if s in SpicesOfName(r, n) {
            var l :| l in r.links && l.1 in Ids(r, n) && l.0 == s;
            assert l.1 == k;
          }
          if s in SpicesOf(r.links, k) {
            assert (s, k) in r.links && (s, k).1 in Ids(r, n);
          }
        }
      } else {
        forall s ensures s in SpicesOfName(r, n) <==> s in SpicesOfName(db, n) {
          if s in SpicesOfName(r, n) {
            var l :| l in r.links && l.1 in Ids(r, n) && l.0 == s;
            assert l.1 in Ids(db, n);
            assert l.1 !in g;
          }
          if s in SpicesOfName(db, n) {
            var l :| l in db.links && l.1 in Ids(db, n) && l.0 == s;
            assert l.1 !in g;
          }
        }
      }
    }
  }

  /** Every link, structure row and descriptor row names an existing
      phytochemical. */
  predicate Integrity(db: Db) {
    && (forall l :: l in db.links ==> l.1 in db.phytochemicals)
    && (forall p :: p in db.structures ==> p in db.phytochemicals)
    && (forall p :: p in db.descriptors ==> p in db.phytochemicals)
  }

  /** One group's merge keeps every reference to a phytochemical valid. */
  lemma GroupStepIntegrity(db: Db, name: string)
    requires Duplicated(db, name) && Integrity(db)
    ensures Integrity(MergeGroup(db, GroupOf(db, name)))
  {
    var g := GroupOf(db, name);
    var k := g[0];
    var r := MergeGroup(db, g);
    MergeGroupNames(db, name);
    MergeGroupLinks(db, name);
    MergeGroupStructures(db, name);
    MergeDupsRows(db, k, g[1..]);
    assert k in r.phytochemicals;
    forall l | l in r.links ensures l.1 in r.phytochemicals {
      if l.1 != k {
        assert l in db.links;
        GroupSplit(g, l.1);
      }
    }
    forall p | p in r.structures ensures p in r.phytochemicals {
      if p != k {
        GroupSplit(g, p);
      }
    }
    forall p | p in r.descriptors ensures p in r.phytochemicals {
      GroupSplit(g, p);
    }
  }

  /** The script keeps every reference to a phytochemical valid. */
  lemma {:induction false} FixKeepsIntegrity(db: Db, names: seq<string>)
    requires DistinctNames(names) && forall i :: 0 <= i < |names| ==> Duplicated(db, names[i])
    requires Integrity(db)
    ensures Integrity(FixDuplicates(db, names))
    decreases |names|
  {
    if names != [] {
      var name := names[0];
      var next := MergeGroup(db, GroupOf(db, name));
      GroupStepIntegrity(db, name);
      MergeGroupNames(db, name);
      RestStillDuplicated(db, names);
      FixKeepsIntegrity(next, names[1..]);
    }
  }

  /** Some row named `name` has a structure row. */
  predicate HasStructure(db: Db, name: string) {
    exists id :: id in Ids(db, name) && id in db.structures
  }

  /** One group's merge keeps, for every name, whether it has a structure. */
  lemma GroupStepStructures(db: Db, name: string)
    requires Duplicated(db, name)
    ensures forall n :: HasStructure(MergeGroup(db, GroupOf(db, name)), n) <==> HasStructure(db, n)
  {
    var g := GroupOf(db, name);
    var k := g[0];
    var r := MergeGroup(db, g);
    MergeGroupNames(db, name);
    MergeGroupStructures(db, name);
    forall n ensures HasStructure(r, n) <==> HasStructure(db, n) {
      if n == name {
        if HasStructure(r, n) {
          var id :| id in Ids(r, n) && id in r.structures;
          assert id == k;
        }
        if HasStructure(db, n) {
          assert k in Ids(r, n) && k in r.structures;
        }
      } else {
        if HasStructure(r, n) {
          var id :| id in Ids(r, n) && id in r.structures;
          assert id in Ids(db, n) && id !in g;
        }
        if HasStructure(db, n) {
          var id :| id in Ids(db, n) && id in db.structures;
          assert id !in g;
          assert id in Ids(r, n) && id in r.structures;
        }
      }
    }
  }

  /** The script never loses a name's structure: a name has a structure row
      afterwards exactly when one of its rows had one before. */
  lemma {:induction false} FixKeepsStructures(db: Db, names: seq<string>)
    requires DistinctNames(names) && forall i :: 0 <= i < |names| ==> Duplicated(db, names[i])
    ensures forall n :: HasStructure(FixDuplicates(db, names), n) <==> HasStructure(db, n)
    decreases |names|
  {
    if names != [] {
      var next := MergeGroup(db, GroupOf(db, names[0]));
      GroupStepStructures(db, names[0]);
      RestStillDuplicated(db, names);
      FixKeepsStructures(next, names[1..]);
    }
  }

  // ---------------------------------------------------------------------------
  // The script as written
  // ---------------------------------------------------------------------------

  /** The duplicates folded into the keeper with the statements as written. */
  function MergeDupsAsWritten(db: Db, k: int, dups: seq<int>): Db
    requires k !in dups
    decreases |dups|
  {
    if dups == [] then db else MergeDupsAsWritten(MergeDupAsWritten(db, k, dups[0]), k, dups[1..])
  }

  function MergeGroupAsWritten(db: Db, g: seq<int>): Db
    requires Distinct(g)
  {
    if |g| < 2 then db
    else
      GroupSplit(g, g[0]);
      MergeDupsAsWritten(db, g[0], g[1..])
  }

  /** The script as it runs: each group read again from the tables as they
      stand, which now include the links left on deleted rows. */
  ghost function FixDuplicatesAsWritten(db: Db, names: seq<string>): Db
    decreases |names|
  {
    if names == [] then db
    else FixDuplicatesAsWritten(MergeGroupAsWritten(db, GroupOf(db, names[0])), names[1..])
  }

  /** `w`, a store the statements as written produced, differs from `c`, the
      corrected one, only by links that name phytochemicals no longer there. */
  predicate Agree(w: Db, c: Db) {
    && w.spices == c.spices && w.phytochemicals == c.phytochemicals && w.structures == c.structures
    && (forall l :: l in w.links && l.1 in c.phytochemicals ==> l in c.links)
    && (forall l :: l in c.links ==> l in w.links)
  }

  /** Agreeing stores rank every existing row alike. */
  lemma AgreeRank(w: Db, c: Db, p: int)
    requires Agree(w, c) && p in c.phytochemicals
    ensures RankOf(w, p) == RankOf(c, p)
  {
    assert SpicesOf(w.links, p) == SpicesOf(c.links, p) by {
      forall x ensures x in SpicesOf(w.links, p) <==> x in SpicesOf(c.links, p) {
        assert (x, p).1 == p;
      }
    }
  }

  /** The group order has one first row. */
  lemma FirstUnique(db: Db, s: set<int>, m: int)
    requires m in s && forall y :: y in s && y != m ==> Precedes(db, m, y)
    ensures First(db, s) == m
  {
  }

  /** Agreeing stores order a group of existing rows alike. */
  lemma {:induction false} AgreeOrder(w: Db, c: Db, s: set<int>)
    requires Agree(w, c) && forall id :: id in s ==> id in c.phytochemicals
    ensures Order(w, s) == Order(c, s)
    decreases |s|
  {
    if s != {} {
      var m := First(c, s);
      forall y | y in s ensures RankOf(w, y) == RankOf(c, y) {
        AgreeRank(w, c, y);
      }
      FirstUnique(w, s, m);
      AgreeOrder(w, c, s - {m});
    }
  }

  /** One duplicate merged both ways keeps the stores agreeing. */
  lemma AgreeStep(w: Db, c: Db, k: int, d: int)
    requires Agree(w, c) && k != d && d in c.phytochemicals
    ensures Agree(MergeDupAsWritten(w, k, d), MergeDup(c, k, d))
  {
    var w', c' := MergeDupAsWritten(w, k, d), MergeDup(c, k, d);
    forall l: (int, int) | l.1 in c'.phytochemicals ensures l in w'.links <==> l in c'.links {
      assert (l.0, d).1 in c.phytochemicals;
    }
    forall l | l in c'.links ensures l in w'.links {
      assert (l.0, d).1 in c.phytochemicals;
    }
  }

  lemma {:induction false} AgreeDups(w: Db, c: Db, k: int, dups: seq<int>)
    requires Agree(w, c) && k !in dups && Distinct(dups)
    requires forall d :: d in dups ==> d in c.phytochemicals
    ensures Agree(MergeDupsAsWritten(w, k, dups), MergeDups(c, k, dups))
    decreases |dups|
  {
    if dups != [] {
      AgreeStep(w, c, k, dups[0]);
      forall d | d in dups[1..] ensures d in MergeDup(c, k, dups[0]).phytochemicals {
        var j :| 0 <= j < |dups[1..]| && dups[1..][j] == d;
        assert dups[j + 1] == d;
      }
      AgreeDups(MergeDupAsWritten(w, k, dups[0]), MergeDup(c, k, dups[0]), k, dups[1..]);
    }
  }

  /** One group merged both ways: the same rows in the same order, and the
      stores still agree. */
  lemma AgreeGroup(w: Db, c: Db, name: string)
    requires Agree(w, c)
    ensures GroupOf(w, name) == GroupOf(c, name)
    ensures Agree(MergeGroupAsWritten(w, GroupOf(w, name)), MergeGroup(c, GroupOf(c, name)))
  {
    assert Ids(w, name) == Ids(c, name);
    AgreeOrder(w, c, Ids(c, name));
    var g := GroupOf(c, name);
    if |g| >= 2 {
      GroupSplit(g, g[0]);
      forall d | d in g[1..] ensures d in c.phytochemicals {
        GroupSplit(g, d);
      }
      AgreeDups(w, c, g[0], g[1..]);
    }
  }

  /** The script as written and the corrected script end in agreeing stores. */
  lemma {:induction false} AgreeFix(w: Db, c: Db, names: seq<string>)
    requires Agree(w, c)
    ensures Agree(FixDuplicatesAsWritten(w, names), FixDuplicates(c, names))
    decreases |names|
  {
    if names != [] {
      AgreeGroup(w, c, names[0]);
      AgreeFix(MergeGroupAsWritten(w, GroupOf(w, names[0])), MergeGroup(c, GroupOf(c, names[0])), names[1..]);
    }
  }

  /** Agreeing stores have the same rows, spices and structures under every
      name. */
  lemma AgreeNames(w: Db, c: Db, n: string)
    requires Agree(w, c)
    ensures Ids(w, n) == Ids(c, n)
    ensures SpicesOfName(w, n) == SpicesOfName(c, n)
    ensures HasStructure(w, n) <==> HasStructure(c, n)
  {
    assert Ids(w, n) == Ids(c, n);
    forall x ensures x in SpicesOfName(w, n) <==> x in SpicesOfName(c, n) {
      if x in SpicesOfName(w, n) {
        var l :| l in w.links && l.1 in Ids(w, n) && l.0 == x;
        assert l in c.links;
      }
      if x in SpicesOfName(c, n) {
        var l :| l in c.links && l.1 in Ids(c, n) && l.0 == x;
        assert l in w.links;
      }
    }
    if HasStructure(c, n) {
      var id :| id in Ids(c, n) && id in c.structures;
      assert id in Ids(w, n) && id in w.structures;
    }
  }

  /** As written, the script still leaves every reported name with one row,
      keeps every name's spices and keeps every name's structure; only the
      links left on deleted rows tell it apart from the corrected script. */
  lemma FixAsWrittenFacts(db: Db, names: seq<string>)
    requires DistinctNames(names) && forall n :: n in names <==> Duplicated(db, n)
    ensures var w := FixDuplicatesAsWritten(db, names);
      && (forall n :: !Duplicated(w, n))
      && (forall n :: SpicesOfName(w, n) == SpicesOfName(db, n))
      && (forall n :: HasStructure(w, n) <==> HasStructure(db, n))
  {
    var w, c := FixDuplicatesAsWritten(db, names), FixDuplicates(db, names);
    AgreeFix(db, db, names);
    FixRemovesDuplicates(db, names);
    assert forall i :: 0 <= i < |names| ==> Duplicated(db, names[i]);
    FixKeepsSpicesByName(db, names);
    FixKeepsStructures(db, names);
    hide FixDuplicates, FixDuplicatesAsWritten, SpicesOfName, HasStructure;
    forall n ensures !Duplicated(w, n) && SpicesOfName(w, n) == SpicesOfName(db, n)
      && (HasStructure(w, n) <==> HasStructure(db, n))
    {
      AgreeNames(w, c, n);
      assert !Duplicated(c, n);
      assert SpicesOfName(c, n) == SpicesOfName(db, n);
      assert HasStructure(c, n) <==> HasStructure(db, n);
    }
  }
}
