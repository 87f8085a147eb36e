/** Index lists: the positions of the entries of a sequence that a filter
    keeps, in increasing order. Both the rule evaluation and the row cleaner
    keep a subsequence of their input and are specified through these. */
module Positions {
  import opened Wrappers

  /** Strictly increasing, so every position is listed once and in order. */
  predicate Increasing(ix: seq<nat>) {
    forall j, k :: 0 <= j < k < |ix| ==> ix[j] < ix[k]
  }

  /** `ix` lists exactly the positions whose flag is set, each once, in order. */
  predicate Lists(ix: seq<nat>, flags: seq<bool>) {
    && Increasing(ix)
    && (forall j :: 0 <= j < |ix| ==> ix[j] < |flags| && flags[ix[j]])
    && (forall i :: 0 <= i < |flags| && flags[i] ==> i in ix)
  }

  /** The positions of a tail, read as positions in the whole sequence. */
  function Shift(ix: seq<nat>): (r: seq<nat>)
    ensures |r| == |ix|
    ensures forall j :: 0 <= j < |ix| ==> r[j] == ix[j] + 1
  {
    seq(|ix|, j requires 0 <= j < |ix| => ix[j] + 1)
  }

  /** The positions whose flag is set. */
  function Where(flags: seq<bool>): (ix: seq<nat>)
    ensures Lists(ix, flags)
    decreases |flags|
  {
    if |flags| == 0 then []
    else
      var rest := Where(flags[1..]);
      ListsCons(flags, rest);
      (if flags[0] then [0] else []) + Shift(rest)
  }

  /** One more flag in front: the tail's positions move up by one. */
  lemma ListsCons(flags: seq<bool>, rest: seq<nat>)
    requires |flags| > 0 && Lists(rest, flags[1..])
    ensures Lists((if flags[0] then [0] else []) + Shift(rest), flags)
  {
    var h: seq<nat> := if flags[0] then [0] else [];
    ConsIncreasing(h, rest);
    ConsFlagged(flags, h, rest);
    ConsComplete(flags, h, rest);
  }

  lemma ConsIncreasing(h: seq<nat>, rest: seq<nat>)
    requires h == [] || h == [0]
    requires Increasing(rest)
    ensures Increasing(h + Shift(rest))
  {
    var r := h + Shift(rest);
    forall j, k | 0 <= j < k < |r| ensures r[j] < r[k] {
      assert r[k] == rest[k - |h|] + 1;
      if j >= |h| {
        assert r[j] == rest[j - |h|] + 1;
      }
    }
  }

  lemma ConsFlagged(flags: seq<bool>, h: seq<nat>, rest: seq<nat>)
    requires |flags| > 0 && h == (if flags[0] then [0] else [])
    requires forall j :: 0 <= j < |rest| ==> rest[j] < |flags[1..]| && flags[1..][rest[j]]
    ensures forall j :: 0 <= j < |h + Shift(rest)| ==>
      (h + Shift(rest))[j] < |flags| && flags[(h + Shift(rest))[j]]
  {
    var r := h + Shift(rest);
    forall j | 0 <= j < |r| ensures r[j] < |flags| && flags[r[j]] {
      if j >= |h| {
        assert r[j] == rest[j - |h|] + 1;
        assert flags[1..][rest[j - |h|]] == flags[r[j]];
      }
    }
  }

  lemma ConsComplete(flags: seq<bool>, h: seq<nat>, rest: seq<nat>)
    requires |flags| > 0 && h == (if flags[0] then [0] else [])
    requires forall i :: 0 <= i < |flags[1..]| && flags[1..][i] ==> i in rest
    ensures forall i :: 0 <= i < |flags| && flags[i] ==> i in h + Shift(rest)
  {
    var r := h + Shift(rest);
    forall i | 0 <= i < |flags| && flags[i] ensures i in r {
      if i == 0 {
        assert r[0] == 0;
      } else {
        assert flags[1..][i - 1];
        var j :| 0 <= j < |rest| && rest[j] == i - 1;
        assert r[j + |h|] == i;
      }
    }
  }

  /** The present entries of a tail, read through its positions, with the
      head in front when it is present. */
  lemma PickShift<T>(xs: seq<Option<T>>, tail: seq<nat>, rest: seq<T>)
    requires |xs| > 0 && |rest| == |tail|
    requires forall j :: 0 <= j < |tail| ==> tail[j] < |xs| - 1 && Some(rest[j]) == xs[1..][tail[j]]
    ensures var picked := (if xs[0].Some? then [xs[0].value] else []) + rest;
      var ix := (if xs[0].Some? then [0] else []) + Shift(tail);
      |picked| == |ix| && forall j :: 0 <= j < |picked| ==> ix[j] < |xs| && Some(picked[j]) == xs[ix[j]]
  {
    var h: seq<T> := if xs[0].Some? then [xs[0].value] else [];
    var hix: seq<nat> := if xs[0].Some? then [0] else [];
    var ix := hix + Shift(tail);
    var picked := h + rest;
    forall j | 0 <= j < |picked| ensures ix[j] < |xs| && Some(picked[j]) == xs[ix[j]] {
      if j >= |h| {
        var t := tail[j - |h|];
        assert ix[j] == t + 1 && picked[j] == rest[j - |h|];
        assert xs[1..][t] == xs[t + 1];
      }
    }
  }

  /** How many flags, from the first, are set. */
  function Leading(flags: seq<bool>): (n: nat)
    ensures n <= |flags|
    ensures forall k :: 0 <= k < n ==> flags[k]
    ensures n < |flags| ==> !flags[n]
    decreases |flags|
  {
    if |flags| == 0 || !flags[0] then 0
    else
      var n := Leading(flags[1..]);
      assert forall k :: 0 < k <= n ==> flags[1..][k - 1] == flags[k];
      1 + n
  }
}
