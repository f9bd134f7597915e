/**
 * `numberWithCommas` (index.js lines 218-220): the text of a number with a
 * comma put in by `replace(/\B(?=(\d{3})+(?!\d))/g, ",")`.
 */
module Format {

  predicate IsDigit(c: char) {
    '0' <= c <= '9'
  }

  /** The characters `\w` matches (no `u` flag, so ASCII only). */
  predicate IsWordChar(c: char) {
    IsDigit(c) || 'a' <= c <= 'z' || 'A' <= c <= 'Z' || c == '_'
  }

  predicate IsDigits(s: string) {
    forall i :: 0 <= i < |s| ==> IsDigit(s[i])
  }

  predicate NoCommas(s: string) {
    forall i :: 0 <= i < |s| ==> s[i] != ','
  }

  /** The length of the run of digits that starts at index `p`. */
  function DigitRun(s: string, p: nat): (n: nat)
    requires p <= |s|
    ensures p + n <= |s|
    ensures forall i :: p <= i < p + n ==> IsDigit(s[i])
    ensures p + n == |s| || !IsDigit(s[p + n])
    decreases |s| - p
  {
    if p < |s| && IsDigit(s[p]) then 1 + DigitRun(s, p + 1) else 0
  }

  /**
   * The pattern matches at the gap before index `p`: `\B` (the gap lies
   * between two word characters, since the lookahead needs a digit after
   * it) and `(?=(\d{3})+(?!\d))` (the digits from `p` on form a run whose
   * length is a positive multiple of three).
   */
  predicate CommaBefore(s: string, p: nat)
    requires p <= |s|
  {
    0 < p && IsWordChar(s[p - 1]) && DigitRun(s, p) > 0 && DigitRun(s, p) % 3 == 0
  }

  /** Where the global replace puts a comma: one flag per gap before each character. */
  function Gaps(s: string): (gaps: seq<bool>)
    ensures |gaps| == |s|
    ensures forall p :: 0 <= p < |s| ==> gaps[p] == CommaBefore(s, p)
  {
    seq(|s|, p requires 0 <= p < |s| => CommaBefore(s, p))
  }

  /** The first `p` characters of `s`, with a comma before each one whose gap is flagged. */
  function Insert(s: string, gaps: seq<bool>, p: nat): string
    requires p <= |s| && |gaps| == |s|
  {
    if p == 0 then []
    else Insert(s, gaps, p - 1) + (if gaps[p - 1] then [','] else []) + [s[p - 1]]
  }

  /** `s` without its commas. */
  function StripCommas(s: string): (r: string)
    ensures NoCommas(r)
  {
    if s == [] then []
    else StripCommas(s[..|s| - 1]) + (if s[|s| - 1] == ',' then [] else [s[|s| - 1]])
  }

  lemma {:induction false} StripCommasAppend(a: string, b: string)
    ensures StripCommas(a + b) == StripCommas(a) + StripCommas(b)
    decreases |b|
  {
    if b != [] {
      var n := |b| - 1;
      assert (a + b)[..|a + b| - 1] == a + b[..n];
      StripCommasAppend(a, b[..n]);
    } else {
      assert a + b == a;
    }
  }

  lemma StripCommasSingle(c: char)
    ensures StripCommas([c]) == if c == ',' then [] else [c]
  {
    assert [c][..0] == [];
  }

  /** One step of the replace, a possible comma and then a character, strips as that character alone does. */
  lemma StripCommasStep(a: string, c: string, x: char)
    requires c == [] || c == [',']
    ensures StripCommas(a + c + [x]) == StripCommas(a) + StripCommas([x])
  {
    StripCommasAppend(a + c, [x]);
    StripCommasAppend(a, c);
    if c != [] {
      StripCommasSingle(',');
    } else {
      assert a + c == a;
    }
  }

  lemma InsertStep(s: string, gaps: seq<bool>, p: nat)
    requires p < |s| && |gaps| == |s|
    ensures Insert(s, gaps, p + 1) == Insert(s, gaps, p) + (if gaps[p] then [','] else []) + [s[p]]
  {
  }

  lemma {:induction false} StripInsert(s: string, gaps: seq<bool>, p: nat)
    requires p <= |s| && |gaps| == |s|
    ensures StripCommas(Insert(s, gaps, p)) == StripCommas(s[..p])
  {
    if p > 0 {
      var a, x := Insert(s, gaps, p - 1), s[p - 1];
      var c: string := if gaps[p - 1] then [','] else [];
      StripInsert(s, gaps, p - 1);
      InsertStep(s, gaps, p - 1);
      StripCommasStep(a, c, x);
      assert s[..p] == s[..p - 1] + [x];
      StripCommasAppend(s[..p - 1], [x]);
    }
  }

  /**
   * `numberWithCommas` (index.js lines 218-220): the global replace of the
   * pattern by a comma. It only ever inserts commas, so taking all commas
   * out of its result and out of its input gives the same text.
   */
  function NumberWithCommas(s: string): (r: string)
    ensures StripCommas(r) == StripCommas(s)
  {
    StripInsert(s, Gaps(s), |s|);
    assert s[..|s|] == s;
    Insert(s, Gaps(s), |s|)
  }

  /** A text without commas is its own stripped form. */
  lemma {:induction false} StripCommasNone(s: string)
    requires NoCommas(s)
    ensures StripCommas(s) == s
  {
    if s != [] {
      var n := |s| - 1;
      assert NoCommas(s[..n]);
      StripCommasNone(s[..n]);
      assert s == s[..n] + [s[n]];
    }
  }

  /** The replace only inserts: taking the commas out again gives back a number text that had none. */
  lemma NumberWithCommasStrips(s: string)
    requires NoCommas(s)
    ensures StripCommas(NumberWithCommas(s)) == s
  {
    StripCommasNone(s);
  }

  /** Reference grouping of a digit string: the last three digits split off, the rest grouped alike. */
  function Thousands(s: string): string
  {
    if |s| <= 3 then s else Thousands(s[..|s| - 3]) + "," + s[|s| - 3..]
  }

  /** In a digit string the pattern matches exactly at the inner gaps a multiple of three from the end. */
  lemma DigitCommaBefore(s: string, p: nat)
    requires IsDigits(s) && p < |s|
    ensures CommaBefore(s, p) <==> 0 < p && (|s| - p) % 3 == 0
  {
    var n := DigitRun(s, p);
    assert p + n == |s|;
  }

  /** Two texts that agree, and agree on their flags, below `p` are replaced alike there. */
  lemma {:induction false} InsertAgree(s: string, gs: seq<bool>, t: string, gt: seq<bool>, p: nat)
    requires p <= |s| && p <= |t| && |gs| == |s| && |gt| == |t|
    requires forall q :: 0 <= q < p ==> s[q] == t[q] && gs[q] == gt[q]
    ensures Insert(s, gs, p) == Insert(t, gt, p)
  {
    if p > 0 {
      InsertAgree(s, gs, t, gt, p - 1);
    }
  }

  lemma {:induction false} InsertNone(s: string, gaps: seq<bool>, p: nat)
    requires p <= |s| && |gaps| == |s|
    requires forall q :: 0 <= q < p ==> !gaps[q]
    ensures Insert(s, gaps, p) == s[..p]
  {
    if p > 0 {
      InsertNone(s, gaps, p - 1);
      assert s[..p] == s[..p - 1] + [s[p - 1]];
    }
  }

  /** A digit string of at most three digits has no gap the pattern matches. */
  lemma ShortReplaced(s: string)
    requires IsDigits(s) && |s| <= 3
    ensures NumberWithCommas(s) == s
  {
    var gaps := Gaps(s);
    forall q | 0 <= q < |s| ensures !gaps[q] {
      DigitCommaBefore(s, q);
    }
    InsertNone(s, gaps, |s|);
    assert s[..|s|] == s;
  }

  lemma CommaThenThree(a: string, b: string, c: string, d: string, tail: string)
    requires |tail| == 3
    requires b == a + [','] + [tail[0]] && c == b + [] + [tail[1]] && d == c + [] + [tail[2]]
    ensures d == a + "," + tail
  {
    assert tail == [tail[0], tail[1], tail[2]];
  }

  /** Flags on, off, off for the last three gaps put one comma before the last three characters. */
  lemma InsertLastThree(s: string, gaps: seq<bool>)
    requires |s| > 3 && |gaps| == |s|
    requires gaps[|s| - 3] && !gaps[|s| - 2] && !gaps[|s| - 1]
    ensures Insert(s, gaps, |s|) == Insert(s, gaps, |s| - 3) + "," + s[|s| - 3..]
  {
    var n := |s|;
    InsertStep(s, gaps, n - 3);
    InsertStep(s, gaps, n - 2);
    InsertStep(s, gaps, n - 1);
    CommaThenThree(Insert(s, gaps, n - 3), Insert(s, gaps, n - 2), Insert(s, gaps, n - 1), Insert(s, gaps, n), s[n - 3..]);
  }

  /** Dropping the last three digits keeps every earlier match of the pattern. */
  lemma PrefixMatches(s: string, q: nat)
    requires IsDigits(s) && q < |s| - 3
    ensures s[q] == s[..|s| - 3][q]
    ensures CommaBefore(s, q) == CommaBefore(s[..|s| - 3], q)
  {
    DigitCommaBefore(s, q);
    DigitCommaBefore(s[..|s| - 3], q);
  }

  /** Below the last three digits the pattern matches as it does in the shorter text. */
  lemma PrefixInsert(s: string)
    requires IsDigits(s) && |s| > 3
    ensures Insert(s, Gaps(s), |s| - 3) == NumberWithCommas(s[..|s| - 3])
  {
    var n := |s|;
    var t := s[..n - 3];
    var gs, gt := Gaps(s), Gaps(t);
    forall q | 0 <= q < n - 3 ensures s[q] == t[q] && gs[q] == gt[q] {
      PrefixMatches(s, q);
    }
    InsertAgree(s, gs, t, gt, n - 3);
  }

  /** A digit string longer than three gets one comma before its last three digits. */
  lemma LastGroupSplit(s: string)
    requires IsDigits(s) && |s| > 3
    ensures NumberWithCommas(s) == NumberWithCommas(s[..|s| - 3]) + "," + s[|s| - 3..]
  {
    var n := |s|;
    PrefixInsert(s);
    DigitCommaBefore(s, n - 3);
    DigitCommaBefore(s, n - 2);
    DigitCommaBefore(s, n - 1);
    InsertLastThree(s, Gaps(s));
  }

  /** On a string of digits the regular expression groups exactly as the reference does. */
  lemma {:induction false} NumberWithCommasGroups(s: string)
    requires IsDigits(s)
    ensures NumberWithCommas(s) == Thousands(s)
    decreases |s|
  {
    if |s| <= 3 {
      ShortReplaced(s);
    } else {
      DigitsSplit(s, |s| - 3);
      LastGroupSplit(s);
      NumberWithCommasGroups(s[..|s| - 3]);
    }
  }


  /** The text before the first comma, or the whole text, is one to three digits. */
  predicate FirstGroupShort(r: string) {
    exists k :: 1 <= k <= 3 && k <= |r| && IsDigits(r[..k]) && (k == |r| || r[k] == ',')
  }

  /** Every comma is followed by exactly three digits and then a comma or the end. */
  predicate LaterGroupsOfThree(r: string) {
    forall i :: 0 <= i < |r| && r[i] == ',' ==>
      i + 4 <= |r| && IsDigits(r[i + 1..i + 4]) && (i + 4 == |r| || r[i + 4] == ',')
  }

  predicate DigitsAndCommas(r: string) {
    forall i :: 0 <= i < |r| && r[i] != ',' ==> IsDigit(r[i])
  }

  /**
   * The shape of a grouped digit string: a first group of one to three
   * digits, then groups of exactly three digits each preceded by a comma;
   * no leading or trailing comma.
   */
  predicate WellGrouped(r: string) {
    r != [] && r[0] != ',' && r[|r| - 1] != ',' &&
    FirstGroupShort(r) && LaterGroupsOfThree(r) && DigitsAndCommas(r)
  }

  lemma FirstGroupAppend(g: string, tail: string)
    requires FirstGroupShort(g)
    ensures FirstGroupShort(g + "," + tail)
  {
    var r := g + "," + tail;
    var k :| 1 <= k <= 3 && k <= |g| && IsDigits(g[..k]) && (k == |g| || g[k] == ',');
    assert r[..k] == g[..k];
    assert r[k] == if k == |g| then ',' else g[k];
  }

  lemma LaterGroupsAppend(g: string, tail: string)
    requires LaterGroupsOfThree(g) && |tail| == 3 && IsDigits(tail) && NoCommas(tail)
    ensures LaterGroupsOfThree(g + "," + tail)
  {
    var r := g + "," + tail;
    var m := |g|;
    forall i | 0 <= i < |r| && r[i] == ','
      ensures i + 4 <= |r| && IsDigits(r[i + 1..i + 4]) && (i + 4 == |r| || r[i + 4] == ',')
    {
      if i < m {
        assert g[i] == ',';
        assert r[i + 1..i + 4] == g[i + 1..i + 4];
        if i + 4 < m {
          assert r[i + 4] == g[i + 4];
        }
      } else if i == m {
        assert r[i + 1..i + 4] == tail;
      }
    }
  }

  lemma DigitsAndCommasAppend(g: string, tail: string)
    requires DigitsAndCommas(g) && IsDigits(tail)
    ensures DigitsAndCommas(g + "," + tail)
  {
    var r := g + "," + tail;
    forall i | 0 <= i < |r| && r[i] != ',' ensures IsDigit(r[i]) {
      if i < |g| {
        assert r[i] == g[i];
      } else {
        assert r[i] == tail[i - |g| - 1];
      }
    }
  }

  lemma ShortGrouped(s: string)
    requires IsDigits(s) && 1 <= |s| <= 3
    ensures WellGrouped(s)
  {
    assert IsDigits(s[..|s|]) by { assert s[..|s|] == s; }
    assert FirstGroupShort(s);
    assert NoCommas(s);
  }

  /** A well-grouped text followed by a comma and three more digits is well grouped. */
  lemma GroupedAppend(g: string, tail: string)
    requires WellGrouped(g) && |tail| == 3 && IsDigits(tail)
    ensures WellGrouped(g + "," + tail)
  {
    assert NoCommas(tail);
    FirstGroupAppend(g, tail);
    LaterGroupsAppend(g, tail);
    DigitsAndCommasAppend(g, tail);
    var r := g + "," + tail;
    assert r[0] == g[0];
    assert r[|r| - 1] == tail[2];
  }

  lemma DigitsSplit(s: string, k: nat)
    requires IsDigits(s) && k <= |s|
    ensures IsDigits(s[..k]) && IsDigits(s[k..])
  {
    assert forall i :: 0 <= i < k ==> s[..k][i] == s[i];
    assert forall i :: 0 <= i < |s| - k ==> s[k..][i] == s[k + i];
  }

  lemma {:induction false} ThousandsShape(s: string)
    requires IsDigits(s) && s != []
    ensures WellGrouped(Thousands(s))
    decreases |s|
  {
    var n := |s|;
    if n <= 3 {
      ShortGrouped(s);
    } else {
      DigitsSplit(s, n - 3);
      ThousandsShape(s[..n - 3]);
      GroupedAppend(Thousands(s[..n - 3]), s[n - 3..]);
    }
  }

  /** Grouping adds one comma for every full three digits after the first digit. */
  lemma {:induction false} ThousandsLength(s: string)
    ensures |Thousands(s)| == if s == [] then 0 else |s| + (|s| - 1) / 3
    decreases |s|
  {
    if |s| > 3 {
      ThousandsLength(s[..|s| - 3]);
    }
  }


  /**
   * For a non-empty digit string the result is well grouped, has one comma
   * per full group of three after the first, and gives the digits back once
   * the commas are removed.
   */
  lemma NumberWithCommasShape(s: string)
    requires IsDigits(s) && s != []
    ensures WellGrouped(NumberWithCommas(s))
    ensures |NumberWithCommas(s)| == |s| + (|s| - 1) / 3
    ensures StripCommas(NumberWithCommas(s)) == s
  {
    NumberWithCommasGroups(s);
    ThousandsShape(s);
    ThousandsLength(s);
    NumberWithCommasStrips(s);
  }

  /** A tooltip for 1,234,500 people. */
  lemma GroupsExample()
    ensures NumberWithCommas("1234500") == "1,234,500"
  {
    var s := "1234500";
    assert IsDigits(s);
    NumberWithCommasGroups(s);
    assert s[..4] == "1234" && s[4..] == "500";
    assert "1234"[..1] == "1" && "1234"[1..] == "234";
    assert Thousands("1234") == "1" + "," + "234";
  }
}
