/** Python string primitives the loaders and path builders rely on:
    `str.isspace`, `str.strip()`, `re.sub(r"\s+", " ", s)`, `str.lower()` and
    decimal rendering / parsing of integers. */
module Text {

  /** The characters Python's `str.isspace` accepts; the `\s` class of `re` on a
      `str` pattern and the argument-less `str.strip()` use the same set. */
  predicate IsSpace(c: char) {
    || ('\t' <= c <= '\r')
    || ('\U{1C}' <= c <= ' ')
    || c == '\U{85}' || c == '\U{A0}' || c == '\U{1680}'
    || ('\U{2000}' <= c <= '\U{200A}')
    || c == '\U{2028}' || c == '\U{2029}' || c == '\U{202F}' || c == '\U{205F}'
    || c == '\U{3000}'
  }

  predicate AllSpace(s: string) {
    forall i :: 0 <= i < |s| ==> IsSpace(s[i])
  }

  predicate NoSpace(s: string) {
    forall i :: 0 <= i < |s| ==> !IsSpace(s[i])
  }

  /** Neither end of `s` is whitespace. */
  predicate Trimmed(s: string) {
    s == [] || (!IsSpace(s[0]) && !IsSpace(s[|s| - 1]))
  }

  /** Every whitespace character is a plain space and no two are adjacent. */
  predicate SingleSpaced(t: string) {
    && (forall i :: 0 <= i < |t| && IsSpace(t[i]) ==> t[i] == ' ')
    && (forall i, j | 0 <= i < |t| && j == i + 1 && j < |t| :: !IsSpace(t[i]) || !IsSpace(t[j]))
  }

  /** The normal form both normalisers produce: single plain spaces, strictly
      inside the text. */
  predicate Squeezed(t: string) {
    SingleSpaced(t) && Trimmed(t)
  }

  // ---------------------------------------------------------------------------
  // Case

  /** `str.lower()` on one character, for ASCII and Latin-1 capitals. */
  function LowerChar(c: char): char {
    if 'A' <= c <= 'Z' || ('\U{C0}' <= c <= '\U{DE}' && c != '\U{D7}') then
      (c as int + 32) as char
    else
      c
  }

  function Lower(s: string): string {
    seq(|s|, i requires 0 <= i < |s| => LowerChar(s[i]))
  }

  predicate IsLower(s: string) {
    forall i :: 0 <= i < |s| ==> LowerChar(s[i]) == s[i]
  }

  /** Lowering changes no character's whitespace-ness and is idempotent. */
  lemma LowerCharFacts(c: char)
    ensures IsSpace(LowerChar(c)) == IsSpace(c)
    ensures LowerChar(LowerChar(c)) == LowerChar(c)
    ensures IsSpace(c) ==> LowerChar(c) == c
  {
  }

  lemma LowerIsLower(s: string)
    ensures IsLower(Lower(s))
  {
    forall i | 0 <= i < |s| {
      LowerCharFacts(s[i]);
    }
  }

  lemma LowerKeepsSqueezed(t: string)
    requires Squeezed(t)
    ensures Squeezed(Lower(t))
  {
    forall i | 0 <= i < |t| {
      LowerCharFacts(t[i]);
    }
    var l := Lower(t);
    forall i, k | 0 <= i < |l| && k == i + 1 && k < |l|
      ensures !IsSpace(l[i]) || !IsSpace(l[k])
    {
      assert !IsSpace(t[i]) || !IsSpace(t[k]);
    }
  }

  lemma LowerOfLower(t: string)
    requires IsLower(t)
    ensures Lower(t) == t
  {
  }

  lemma LowerConcat(a: string, b: string)
    ensures Lower(a + b) == Lower(a) + Lower(b)
  {
  }

  // ---------------------------------------------------------------------------
  // strip()

  /** Length of the longest all-whitespace prefix of `s`. */
  function LeadingSpaces(s: string): (k: nat)
    ensures k <= |s|
    ensures forall i :: 0 <= i < k ==> IsSpace(s[i])
    ensures k == |s| || !IsSpace(s[k])
  {
    if s == [] || !IsSpace(s[0]) then 0 else 1 + LeadingSpaces(s[1..])
  }

  /** Length of the longest all-whitespace suffix of `s`. */
  function TrailingSpaces(s: string): (k: nat)
    ensures k <= |s|
    ensures forall i :: |s| - k <= i < |s| ==> IsSpace(s[i])
    ensures k == |s| || !IsSpace(s[|s| - 1 - k])
  {
    if s == [] || !IsSpace(s[|s| - 1]) then 0 else 1 + TrailingSpaces(s[..|s| - 1])
  }

  /** `str.strip()`: drops leading and trailing whitespace. */
  function Strip(s: string): (r: string)
    ensures Trimmed(r)
    ensures r == [] <==> AllSpace(s)
    ensures |r| <= |s|
  {
    var u := s[LeadingSpaces(s)..];
    u[..|u| - TrailingSpaces(u)]
  }

  /** The leading-whitespace count is the unique cut point its contract describes. */
  lemma LeadingSpacesAt(s: string, k: nat)
    requires k <= |s|
    requires forall i :: 0 <= i < k ==> IsSpace(s[i])
    requires k == |s| || !IsSpace(s[k])
    ensures LeadingSpaces(s) == k
  {
    var j := LeadingSpaces(s);
    if j < k {
      assert false;
    } else if j > k {
      assert false;
    }
  }

  lemma TrailingSpacesAt(s: string, k: nat)
    requires k <= |s|
    requires forall i :: |s| - k <= i < |s| ==> IsSpace(s[i])
    requires k == |s| || !IsSpace(s[|s| - 1 - k])
    ensures TrailingSpaces(s) == k
  {
    var j := TrailingSpaces(s);
    if j < k {
      assert false;
    } else if j > k {
      assert false;
    }
  }

  /** `strip()` removes exactly the whitespace padding around a trimmed core:
      the reference characterisation of `Strip`. */
  lemma StripPadded(p: string, t: string, q: string)
    requires AllSpace(p) && AllSpace(q) && Trimmed(t)
    ensures Strip(p + t + q) == t
  {
    var s := p + t + q;
    if t == [] {
      assert AllSpace(s) by {
        forall i | 0 <= i < |s| ensures IsSpace(s[i]) {
          if i < |p| { assert s[i] == p[i]; } else { assert s[i] == q[i - |p|]; }
        }
      }
    } else {
      assert s[|p|] == t[0];
      LeadingSpacesAt(s, |p|);
      var u := s[|p|..];
      assert u == t + q;
      assert u[|u| - 1 - |q|] == t[|t| - 1];
      TrailingSpacesAt(u, |q|);
      assert u[..|u| - |q|] == t;
    }
  }

  /** Every string is its stripped core between two runs of whitespace. */
  lemma StripDecompose(s: string) returns (p: string, q: string)
    ensures AllSpace(p) && AllSpace(q) && s == p + Strip(s) + q
  {
    var a := LeadingSpaces(s);
    var u := s[a..];
    var n := |u| - TrailingSpaces(u);
    var t := u[..n];
    assert Strip(s) == t;
    p, q := s[..a], u[n..];
    assert AllSpace(p) by {
      forall i | 0 <= i < |p| ensures IsSpace(p[i]) {
        assert p[i] == s[i];
      }
    }
    assert AllSpace(q) by {
      forall i | 0 <= i < |q| ensures IsSpace(q[i]) {
        assert q[i] == u[n + i];
      }
    }
    SplitAt(s, a);
    SplitAt(u, n);
    ConcatAssoc(p, t, q);
  }

  lemma SplitAt(x: string, k: nat)
    requires k <= |x|
    ensures x == x[..k] + x[k..]
  {
  }

  lemma AllSpaceConcat(a: string, b: string)
    requires AllSpace(a) && AllSpace(b)
    ensures AllSpace(a + b)
  {
    assert forall i :: 0 <= i < |a + b| ==> (a + b)[i] == (if i < |a| then a[i] else b[i - |a|]);
  }

  /** Whichever way `s` splits into whitespace padding around a trimmed core,
      `Strip` returns that core. */
  lemma StripCore(s: string)
    ensures forall p, t, q :: s == p + t + q && AllSpace(p) && AllSpace(q) && Trimmed(t) ==> Strip(s) == t
  {
    forall p, t, q | s == p + t + q && AllSpace(p) && AllSpace(q) && Trimmed(t) ensures Strip(s) == t {
      StripPadded(p, t, q);
    }
  }

  lemma StripTrimmed(t: string)
    requires Trimmed(t)
    ensures Strip(t) == t
  {
    StripPadded([], t, []);
    assert [] + t + [] == t;
  }

  /** Padding with whitespace does not change what `strip()` returns. */
  lemma StripIgnoresPadding(p: string, s: string, q: string)
    requires AllSpace(p) && AllSpace(q)
    ensures Strip(p + s + q) == Strip(s)
  {
    var t := Strip(s);
    var a, b := StripDecompose(s);
    AllSpaceConcat(p, a);
    AllSpaceConcat(b, q);
    assert p + s + q == (p + a) + t + (b + q);
    StripPadded(p + a, t, b + q);
  }

  /** Lowering and stripping commute, since lowering keeps whitespace as it is. */
  lemma StripLower(s: string)
    ensures Strip(Lower(s)) == Lower(Strip(s))
  {
    var t := Strip(s);
    var p, q := StripDecompose(s);
    LowerConcat(p, t);
    LowerConcat(p + t, q);
    LowerKeepsSpace(p);
    LowerKeepsSpace(q);
    var lt := Lower(t);
    assert Lower(s) == p + lt + q;
    assert Trimmed(lt) by {
      if t != [] {
        LowerCharFacts(t[0]);
        LowerCharFacts(t[|t| - 1]);
      }
    }
    StripPadded(p, lt, q);
  }

  lemma LowerKeepsSpace(p: string)
    requires AllSpace(p)
    ensures Lower(p) == p
  {
    forall i | 0 <= i < |p| ensures Lower(p)[i] == p[i] {
      LowerCharFacts(p[i]);
    }
  }

  // ---------------------------------------------------------------------------
  // re.sub(r"\s+", " ", s)

  /** Replaces every maximal run of whitespace by one plain space. */
  function Collapse(s: string): (r: string)
    ensures r == [] <==> s == []
    ensures |s| > 0 && !IsSpace(s[0]) ==> r[0] == s[0]
    ensures SingleSpaced(r)
    decreases |s|
  {
    if s == [] then []
    else if IsSpace(s[0]) then " " + Collapse(s[LeadingSpaces(s)..])
    else [s[0]] + Collapse(s[1..])
  }

  // ---------------------------------------------------------------------------
  // Words: the reference meaning of both normalisers

  /** Length of the longest whitespace-free prefix of `s`. */
  function WordLength(s: string): (k: nat)
    ensures k <= |s|
    ensures forall i :: 0 <= i < k ==> !IsSpace(s[i])
    ensures k == |s| || IsSpace(s[k])
  {
    if s == [] || IsSpace(s[0]) then 0 else 1 + WordLength(s[1..])
  }

  /** The maximal whitespace-free tokens of `s`, in order. */
  function Words(s: string): (ws: seq<string>)
    ensures forall i :: 0 <= i < |ws| ==> ws[i] != [] && NoSpace(ws[i])
    decreases |s|
  {
    var t := s[LeadingSpaces(s)..];
    if t == [] then []
    else
      assert t[0] == s[LeadingSpaces(s)] && !IsSpace(t[0]);
      var k := WordLength(t);
      var rest := Words(t[k..]);
      ProperCons(t[..k], rest);
      [t[..k]] + rest
  }

  lemma ProperCons(w: string, rest: seq<string>)
    requires w != [] && NoSpace(w)
    requires forall i :: 0 <= i < |rest| ==> rest[i] != [] && NoSpace(rest[i])
    ensures forall i :: 0 <= i < |[w] + rest| ==> ([w] + rest)[i] != [] && NoSpace(([w] + rest)[i])
  {
    forall i | 0 <= i < |[w] + rest| ensures ([w] + rest)[i] != [] && NoSpace(([w] + rest)[i]) {
      if i > 0 {
        assert ([w] + rest)[i] == rest[i - 1];
      }
    }
  }

  function Join(ws: seq<string>, sep: string): string {
    if |ws| == 0 then []
    else if |ws| == 1 then ws[0]
    else ws[0] + sep + Join(ws[1..], sep)
  }

  /** Three parts joined. */
  lemma JoinThree(a: string, b: string, c: string, sep: string)
    ensures Join([a, b, c], sep) == a + sep + (b + sep + c)
  {
    assert [a, b, c][1..] == [b, c] && [b, c][1..] == [c];
    assert Join([c], sep) == c;
    assert Join([b, c], sep) == b + sep + c;
  }

  /** The joined string is at least as long as the last part. */
  lemma {:induction false} JoinCoversLast(ws: seq<string>, sep: string)
    requires ws != []
    ensures |Join(ws, sep)| >= |ws[|ws| - 1]|
    decreases |ws|
  {
    if |ws| > 1 {
      JoinCoversLast(ws[1..], sep);
      assert ws[1..][|ws[1..]| - 1] == ws[|ws| - 1];
    }
  }

  predicate ProperWords(ws: seq<string>) {
    forall i :: 0 <= i < |ws| ==> ws[i] != [] && NoSpace(ws[i])
  }

  /** Words joined by single spaces are in the normal form. */
  lemma {:induction false} JoinWordsSqueezed(ws: seq<string>)
    requires ProperWords(ws)
    ensures Squeezed(Join(ws, " "))
    ensures ws != [] ==> Join(ws, " ") != [] && Join(ws, " ")[0] == ws[0][0]
    decreases |ws|
  {
    if |ws| == 1 {
      assert Join(ws, " ") == ws[0];
    } else if |ws| > 1 {
      var w := ws[0];
      var rest := Join(ws[1..], " ");
      JoinWordsSqueezed(ws[1..]);
      var j := w + " " + rest;
      assert Join(ws, " ") == j;
      assert j[|j| - 1] == rest[|rest| - 1];
      forall i | 0 <= i < |j| && IsSpace(j[i])
        ensures j[i] == ' '
      {
        if i > |w| {
          assert j[i] == rest[i - |w| - 1];
        }
      }
      forall i, k | 0 <= i < |j| && k == i + 1 && k < |j|
        ensures !IsSpace(j[i]) || !IsSpace(j[k])
      {
        if i == |w| {
          assert j[k] == rest[0];
        } else if i > |w| {
          assert j[i] == rest[i - |w| - 1] && j[k] == rest[k - |w| - 1];
        }
      }
    }
  }

  lemma LeadingSpacesOfNonSpace(s: string)
    requires s != [] && !IsSpace(s[0])
    ensures LeadingSpaces(s) == 0
  {
  }

  lemma WordsAfterSpaces(p: string, x: string)
    requires AllSpace(p)
    ensures Words(p + x) == Words(x)
  {
    var s := p + x;
    var l := LeadingSpaces(x);
    forall i | 0 <= i < |p| + l
      ensures IsSpace(s[i])
    {
      if i < |p| {
        assert s[i] == p[i];
      } else {
        assert s[i] == x[i - |p|];
      }
    }
    if |p| + l < |s| {
      assert s[|p| + l] == x[l];
    }
    LeadingSpacesAt(s, |p| + l);
    assert s[LeadingSpaces(s)..] == x[LeadingSpaces(x)..];
  }

  lemma WordLengthAt(s: string, k: nat)
    requires k <= |s|
    requires forall i :: 0 <= i < k ==> !IsSpace(s[i])
    requires k == |s| || IsSpace(s[k])
    ensures WordLength(s) == k
  {
    var j := WordLength(s);
    if j < k {
      assert false;
    } else if j > k {
      assert false;
    }
  }

  /** Trailing whitespace adds no word. */
  lemma {:induction false} WordsBeforeSpaces(x: string, q: string)
    requires AllSpace(q)
    ensures Words(x + q) == Words(x)
    decreases |x|
  {
    var s := x + q;
    var l := LeadingSpaces(x);
    if l == |x| {
      assert AllSpace(x);
      AllSpaceConcat(x, q);
      WordsOfSpaces(x + q);
      WordsOfSpaces(x);
    } else {
      assert s[l] == x[l];
      LeadingSpacesAt(s, l);
      var t := x[l..];
      var ts := s[l..];
      assert ts == t + q;
      var k := WordLength(t);
      if k < |t| {
        assert ts[k] == t[k];
      } else if |q| > 0 {
        assert ts[k] == q[0];
      }
      WordLengthAt(ts, k);
      assert ts[..k] == t[..k];
      assert ts[k..] == t[k..] + q;
      WordsBeforeSpaces(t[k..], q);
    }
  }

  lemma WordsOfSpaces(s: string)
    requires AllSpace(s)
    ensures Words(s) == []
  {
    LeadingSpacesAt(s, |s|);
  }




  /** Words of a word followed by whitespace and more text. */
  lemma WordsStep(t: string)
    requires t != [] && !IsSpace(t[0])
    ensures Words(t) == [t[..WordLength(t)]] + Words(t[WordLength(t)..])
  {
    LeadingSpacesOfNonSpace(t);
    assert t[0..] == t;
  }

  // ---------------------------------------------------------------------------
  // Connecting Collapse and Strip to Words

  lemma {:induction false} CollapseWordPrefix(s: string, k: nat)
    requires k <= WordLength(s)
    ensures Collapse(s) == s[..k] + Collapse(s[k..])
    decreases k
  {
    if k > 0 {
      assert !IsSpace(s[0]);
      WordLengthTail(s);
      CollapseWordPrefix(s[1..], k - 1);
      var w, rest := s[1..][..k - 1], s[1..][k - 1..];
      assert Collapse(s) == [s[0]] + (w + Collapse(rest));
      assert rest == s[k..];
      assert s[..k] == [s[0]] + w;
      ConcatAssoc([s[0]], w, Collapse(rest));
    }
  }

  lemma WordLengthTail(s: string)
    requires s != [] && !IsSpace(s[0])
    ensures WordLength(s[1..]) == WordLength(s) - 1
  {
  }

  predicate EndsInSpace(s: string) {
    |s| > 0 && IsSpace(s[|s| - 1])
  }

  lemma ConcatAssoc(a: string, b: string, c: string)
    ensures a + (b + c) == a + b + c
  {
  }

  /** The space `Collapse` keeps for leading whitespace. */
  function LeadPad(s: string): string {
    if |s| > 0 && IsSpace(s[0]) then " " else ""
  }

  /** The space `Collapse` keeps for whitespace after the last word. */
  function TrailPad(s: string): string {
    if Words(s) != [] && EndsInSpace(s) then " " else ""
  }

  /** The collapsed text is the words joined by single spaces, plus one space for
      leading whitespace and one for trailing whitespace after a word. */
  lemma {:induction false} CollapseShape(s: string)
    ensures Collapse(s) == LeadPad(s) + Join(Words(s), " ") + TrailPad(s)
    decreases |s|, 2
  {
    if s != [] && IsSpace(s[0]) {
      var l := LeadingSpaces(s);
      var r := s[l..];
      assert Words(s) == Words(r) by {
        assert s == s[..l] + r;
        WordsAfterSpaces(s[..l], r);
      }
      CollapseShapeNoLead(r);
      if Words(r) != [] {
        assert EndsInSpace(s) == EndsInSpace(r);
      }
      assert TrailPad(s) == TrailPad(r);
      assert Collapse(s) == " " + Collapse(r);
      assert LeadPad(s) == " ";
      ConcatAssoc(LeadPad(s), Join(Words(s), " "), TrailPad(s));
    } else {
      CollapseShapeNoLead(s);
      assert LeadPad(s) == "";
      assert LeadPad(s) + Join(Words(s), " ") == Join(Words(s), " ");
    }
  }

  lemma {:induction false} CollapseShapeNoLead(s: string)
    requires s == [] || !IsSpace(s[0])
    ensures Collapse(s) == Join(Words(s), " ") + TrailPad(s)
    decreases |s|, 1
  {
    if s != [] {
      var k := WordLength(s);
      WordsStep(s);
      CollapseWordPrefix(s, k);
      if k == |s| {
        CollapseShapeOneWord(s);
      } else {
        CollapseShapeMoreWords(s, k);
      }
    }
  }

  lemma CollapseShapeOneWord(s: string)
    requires s != [] && WordLength(s) == |s|
    requires Words(s) == [s[..|s|]] + Words(s[|s|..])
    requires Collapse(s) == s[..|s|] + Collapse(s[|s|..])
    ensures Collapse(s) == Join(Words(s), " ") + TrailPad(s)
  {
    assert s[..|s|] == s;
    assert s[|s|..] == [];
    assert Words(s) == [s];
    assert !EndsInSpace(s);
  }

  lemma {:induction false} CollapseShapeMoreWords(s: string, k: nat)
    requires s != [] && !IsSpace(s[0])
    requires k == WordLength(s) && k < |s|
    requires Words(s) == [s[..k]] + Words(s[k..])
    requires Collapse(s) == s[..k] + Collapse(s[k..])
    ensures Collapse(s) == Join(Words(s), " ") + TrailPad(s)
    decreases |s|, 0
  {
    var w := s[..k];
    var rest := s[k..];
    assert rest[0] == s[k];
    assert LeadPad(rest) == " ";
    CollapseShape(rest);
    var jr := Join(Words(rest), " ");
    var t := TrailPad(rest);
    assert Collapse(rest) == " " + jr + t;
    assert s[|s| - 1] == rest[|rest| - 1];
    if Words(rest) == [] {
      WordsEmptyAllSpace(rest);
      assert Words(s) == [w];
      assert Join(Words(s), " ") == w;
      assert TrailPad(s) == " ";
      assert Collapse(rest) == " ";
    } else {
      var ws := Words(s);
      assert ws[1..] == Words(rest);
      assert Join(ws, " ") == w + " " + jr;
      TrailPadSame(s, rest);
      ConcatAssoc(w, " " + jr, t);
      ConcatAssoc(w, " ", jr);
    }
  }

  lemma TrailPadSame(s: string, r: string)
    requires Words(s) != [] && Words(r) != []
    requires |s| > 0 && |r| > 0 && s[|s| - 1] == r[|r| - 1]
    ensures TrailPad(s) == TrailPad(r)
  {
  }

  lemma WordsEmptyAllSpace(s: string)
    requires Words(s) == []
    ensures AllSpace(s)
  {
    var l := LeadingSpaces(s);
    if l < |s| {
      assert false;
    }
  }

  /** `re.sub(r"\s+", " ", s).strip()` is the words joined by single spaces. */
  lemma StripOfCollapse(s: string)
    ensures Strip(Collapse(s)) == Join(Words(s), " ")
    ensures Squeezed(Strip(Collapse(s)))
  {
    var j := Join(Words(s), " ");
    JoinWordsSqueezed(Words(s));
    CollapseShape(s);
    assert Trimmed(j);
    PadsAreSpace(s);
    StripPadded(LeadPad(s), j, TrailPad(s));
  }

  lemma PadsAreSpace(s: string)
    ensures AllSpace(LeadPad(s)) && AllSpace(TrailPad(s))
  {
    assert IsSpace(' ');
  }

  /** `re.sub(r"\s+", " ", s.strip())` is the words joined by single spaces too. */
  lemma CollapseOfStrip(s: string)
    ensures Collapse(Strip(s)) == Join(Words(s), " ")
  {
    var t := Strip(s);
    var p, q := StripDecompose(s);
    assert s == p + (t + q);
    WordsAfterSpaces(p, t + q);
    WordsBeforeSpaces(t, q);
    assert Words(s) == Words(t);
    CollapseOfTrimmed(t);
  }

  lemma CollapseOfTrimmed(t: string)
    requires Trimmed(t)
    ensures Collapse(t) == Join(Words(t), " ")
  {
    CollapseShape(t);
    PadsOfTrimmed(t);
  }

  lemma PadsOfTrimmed(t: string)
    requires Trimmed(t)
    ensures LeadPad(t) == "" && TrailPad(t) == ""
  {
  }

  /** Single-spaced text is a fixed point of the collapse. */
  lemma {:induction false} CollapseSingleSpaced(t: string)
    requires SingleSpaced(t)
    ensures Collapse(t) == t
    decreases |t|
  {
    if t != [] {
      var r := t[1..];
      assert SingleSpaced(r) by {
        forall i | 0 <= i < |r| && IsSpace(r[i]) ensures r[i] == ' ' {
          assert r[i] == t[i + 1];
        }
        forall i, k | 0 <= i < |r| && k == i + 1 && k < |r|
          ensures !IsSpace(r[i]) || !IsSpace(r[k])
        {
          assert r[i] == t[i + 1] && r[k] == t[k + 1];
        }
      }
      if IsSpace(t[0]) {
        LeadingSpacesAt(t, 1);
      }
      CollapseSingleSpaced(r);
    }
  }

  /** Text in normal form is a fixed point of both `strip()` and the collapse. */
  lemma SqueezedFixed(t: string)
    requires Squeezed(t)
    ensures Collapse(t) == t && Strip(t) == t
  {
    CollapseSingleSpaced(t);
    StripTrimmed(t);
  }

  // ---------------------------------------------------------------------------
  // Decimal digits

  predicate IsDigit(c: char) {
    '0' <= c <= '9'
  }

  predicate AllDigits(s: string) {
    forall i :: 0 <= i < |s| ==> IsDigit(s[i])
  }

  function DigitChar(d: nat): char
    requires d < 10
  {
    ('0' as int + d) as char
  }

  /** Value of a decimal digit string; the empty string reads as 0. */
  function DigitsValue(s: string): nat
    requires AllDigits(s)
  {
    if s == [] then 0
    else 10 * DigitsValue(s[..|s| - 1]) + (s[|s| - 1] as int - '0' as int)
  }

  /** Python's `str(n)` for a natural number. */
  function NatToString(n: nat): (r: string)
    ensures r != [] && AllDigits(r)
    ensures |r| > 1 ==> r[0] != '0'
  {
    if n < 10 then [DigitChar(n)] else NatToString(n / 10) + [DigitChar(n % 10)]
  }

  /** Python's `str(i)` / f-string rendering of an integer. */
  function IntToString(i: int): (r: string)
    ensures r != []
  {
    if i < 0 then "-" + NatToString(-i) else NatToString(i)
  }

  lemma {:induction false} NatToStringRoundTrip(n: nat)
    ensures DigitsValue(NatToString(n)) == n
  {
    if n >= 10 {
      NatToStringRoundTrip(n / 10);
      var r := NatToString(n);
      assert r[..|r| - 1] == NatToString(n / 10);
    }
  }

  /** Different numbers render differently, so `CID_{cid}` names never collide. */
  lemma NatToStringInjective(m: nat, n: nat)
    requires NatToString(m) == NatToString(n)
    ensures m == n
  {
    NatToStringRoundTrip(m);
    NatToStringRoundTrip(n);
  }

  lemma IntToStringInjective(a: int, b: int)
    requires IntToString(a) == IntToString(b)
    ensures a == b
  {
    if a < 0 && b < 0 {
      assert NatToString(-a) == IntToString(a)[1..];
      NatToStringInjective(-a, -b);
    } else if a >= 0 && b >= 0 {
      NatToStringInjective(a, b);
    } else {
      assert false;
    }
  }
}
