/** The names ReadImgsInPDF gives the images it extracts (internal/imgutil/read.go):
    `PaddingZero(jdx, width) + "_" + idx`, where idx is the position of the
    page's map in the extracted list, jdx the image's key in that map and
    width the digit count of the largest key (at least 0). */
module PdfNames {
  import opened Digits
  import opened Format
  import opened Lex
  import opened Paths

  /** `fmt.Sprintf("%s_%d", PaddingZero(jdx, width), idx)`. */
  function PdfName(jdx: int64, width: int, idx: nat): (name: string)
    requires 0 <= width <= MaxFmtWidth
    ensures forall i :: 0 <= i < |name| ==> name[i] != '.' && name[i] != '/'
  {
    PaddingZeroCharset(jdx as int, width);
    PaddingZero(jdx as int, width) + "_" + Decimal(idx)
  }

  /** With a non-negative width the padded form holds digits and at most a
      minus sign, so never the separator '_'. */
  lemma PaddingZeroCharset(n: int, width: int)
    requires 0 <= width <= MaxFmtWidth
    ensures var s := PaddingZero(n, width);
      forall i :: 0 <= i < |s| ==> IsDigit(s[i]) || s[i] == '-'
  {
    if n >= 0 {
      PaddingZeroShape(n, width);
    } else {
      NegativePaddingMagnitude(n, width);
      var s := PaddingZero(n, width);
      forall i | 0 < i < |s| ensures IsDigit(s[i]) {
        assert s[i] == s[1..][i - 1];
      }
    }
  }

  /** A string split at its first '_' has one head and one tail. */
  lemma SplitAtFirstUnderscore(a: string, b: string, c: string, d: string)
    requires forall i :: 0 <= i < |a| ==> a[i] != '_'
    requires forall i :: 0 <= i < |c| ==> c[i] != '_'
    requires a + "_" + b == c + "_" + d
    ensures a == c && b == d
  {
    var s := a + "_" + b;
    assert s[|a|] == '_' && s[|c|] == '_';
    assert a == s[..|a|] && c == s[..|c|];
    assert b == s[|a| + 1..] && d == s[|c| + 1..];
  }

  lemma DecimalInjective(a: nat, b: nat)
    requires Decimal(a) == Decimal(b)
    ensures a == b
  {
    ParseDecimal(a);
    ParseDecimal(b);
  }

  /** Different (key, page) pairs get different names: the padded key is
      read back up to the separator, the page index after it. */
  lemma PdfNameInjective(j1: int64, i1: nat, j2: int64, i2: nat, width: int)
    requires 0 <= width <= MaxFmtWidth
    requires PdfName(j1, width, i1) == PdfName(j2, width, i2)
    ensures j1 == j2 && i1 == i2
  {
    PaddingZeroCharset(j1 as int, width);
    PaddingZeroCharset(j2 as int, width);
    SplitAtFirstUnderscore(PaddingZero(j1 as int, width), Decimal(i1), PaddingZero(j2 as int, width), Decimal(i2));
    PaddingZeroInjective(j1 as int, j2 as int, width);
    DecimalInjective(i1, i2);
  }

  /** Sorting the names orders by key first, numerically since every key is
      padded to one width, and then by the page index as a string, unpadded. */
  lemma PdfNameOrder(j1: int64, i1: nat, j2: int64, i2: nat, width: int)
    requires 0 <= j1 && 0 <= j2 && width <= MaxFmtWidth
    requires DigitCount(j1 as int) <= width && DigitCount(j2 as int) <= width
    ensures Less(PdfName(j1, width, i1), PdfName(j2, width, i2)) <==>
      j1 < j2 || (j1 == j2 && Less(Decimal(i1), Decimal(i2)))
  {
    var p, q := PaddingZero(j1 as int, width), PaddingZero(j2 as int, width);
    assert PdfName(j1, width, i1) == p + ("_" + Decimal(i1));
    assert PdfName(j2, width, i2) == q + ("_" + Decimal(i2));
    PaddingZeroOrder(j1 as int, j2 as int, width);
    if j1 != j2 {
      assert p != q by {
        if p == q {
          PaddingZeroInjective(j1 as int, j2 as int, width);
        }
      }
      LessDifferentPrefix(p, q, "_" + Decimal(i1), "_" + Decimal(i2));
    } else {
      assert PdfName(j1, width, i1) == (p + "_") + Decimal(i1);
      assert PdfName(j2, width, i2) == (p + "_") + Decimal(i2);
      LessCommonPrefix(p + "_", Decimal(i1), Decimal(i2));
    }
  }

  /** The page index is not padded: with one key, page 10 sorts before page 2. */
  lemma PageTenBeforePageTwo()
    ensures PdfName(0, 1, 10) == "0_10" && PdfName(0, 1, 2) == "0_2"
    ensures Less(PdfName(0, 1, 10), PdfName(0, 1, 2))
  {
    assert Decimal(10) == Decimal(1) + [DigitChar(0)];
  }

  /** m is what the jdxMax loop computes: 0 or the largest key, whichever
      is larger. */
  ghost predicate IsJdxMax<V>(ms: seq<map<int64, V>>, m: int)
  {
    m >= 0 &&
    (forall i, k :: 0 <= i < |ms| && k in ms[i] ==> k as int <= m) &&
    (m == 0 || exists i, k :: 0 <= i < |ms| && k in ms[i] && k as int == m)
  }

  /** The larger of 0 and the largest key of one map. */
  ghost function KeyMax(s: set<int64>): (m: int)
    ensures m >= 0 && m < 0x8000_0000_0000_0000
    ensures forall k :: k in s ==> k as int <= m
    ensures m == 0 || exists k :: k in s && k as int == m
    decreases |s|
  {
    if s == {} then 0
    else
      var k :| k in s;
      var r := KeyMax(s - {k});
      assert forall x :: x in s ==> x == k || x in s - {k};
      if k as int > r then k as int else r
  }

  ghost function JdxMax<V>(ms: seq<map<int64, V>>): (m: int)
    ensures IsJdxMax(ms, m) && m < 0x8000_0000_0000_0000
    decreases |ms|
  {
    if ms == [] then 0
    else
      var a, b := KeyMax(ms[0].Keys), JdxMax(ms[1..]);
      assert forall i, k :: 0 < i < |ms| && k in ms[i] ==> k in ms[1..][i - 1];
      if a > b then a else b
  }

  /** The maximum is unique, whatever order the maps are visited in. */
  lemma JdxMaxUnique<V>(ms: seq<map<int64, V>>, m: int)
    requires IsJdxMax(ms, m)
    ensures m == JdxMax(ms)
  {
  }

  /** The key width: the digit count of the maximum, at most 19. */
  ghost function KeyWidth<V>(ms: seq<map<int64, V>>): (w: int)
    ensures 1 <= w <= 19
    ensures forall i, k :: 0 <= i < |ms| && k in ms[i] && k >= 0 ==> DigitCount(k as int) <= w
  {
    var m := JdxMax(ms);
    DigitCountInt64(m as int64);
    DigitCountPositive(m);
    forall i, k | 0 <= i < |ms| && k in ms[i] && k >= 0 ensures DigitCount(k as int) <= DigitCount(m) {
      DigitCountMonotone(k as int, m);
    }
    DigitCount(m)
  }

  /** Within one page, different keys give different names. */
  lemma PageNamesInjective(width: int, idx: nat)
    requires 0 <= width <= MaxFmtWidth
    ensures forall j1, j2 :: PdfName(j1, width, idx) == PdfName(j2, width, idx) ==> j1 == j2
  {
    forall j1, j2 | PdfName(j1, width, idx) == PdfName(j2, width, idx) ensures j1 == j2 {
      PdfNameInjective(j1, idx, j2, idx, width);
    }
  }

  /** The entries one page's map contributes to imgsMap: its images under
      their names. */
  ghost function PageSources<V>(m: map<int64, V>, width: int, idx: nat): (e: map<string, V>)
    requires 0 <= width <= MaxFmtWidth
  {
    PageNamesInjective(width, idx);
    map j | j in m :: PdfName(j, width, idx) := m[j]
  }

  /** The entries of the first n pages, later pages written after earlier ones. */
  ghost function Sources<V>(ms: seq<map<int64, V>>, width: int, n: nat): map<string, V>
    requires 0 <= width <= MaxFmtWidth && n <= |ms|
  {
    if n == 0 then map[] else Sources(ms, width, n - 1) + PageSources(ms[n - 1], width, n - 1)
  }

  lemma PageSourcesHave<V>(m: map<int64, V>, width: int, idx: nat, j: int64)
    requires 0 <= width <= MaxFmtWidth && j in m
    ensures PdfName(j, width, idx) in PageSources(m, width, idx)
    ensures PageSources(m, width, idx)[PdfName(j, width, idx)] == m[j]
  {
    PageNamesInjective(width, idx);
  }

  lemma PageSourcesNamed<V>(m: map<int64, V>, width: int, idx: nat, name: string)
    requires 0 <= width <= MaxFmtWidth && name in PageSources(m, width, idx)
    ensures exists j :: j in m && name == PdfName(j, width, idx)
  {
  }

  /** Every image of the first n pages is in the map under its own name:
      nothing is overwritten. */
  lemma {:induction false} SourcesHaveImage<V>(ms: seq<map<int64, V>>, width: int, n: nat, i: nat, j: int64)
    requires 0 <= width <= MaxFmtWidth && n <= |ms|
    requires i < n && j in ms[i]
    ensures PdfName(j, width, i) in Sources(ms, width, n)
    ensures Sources(ms, width, n)[PdfName(j, width, i)] == ms[i][j]
  {
    var name := PdfName(j, width, i);
    var prev := Sources(ms, width, n - 1);
    var page := PageSources(ms[n - 1], width, n - 1);
    assert Sources(ms, width, n) == prev + page;
    if i == n - 1 {
      PageSourcesHave(ms[i], width, i, j);
    } else {
      SourcesHaveImage(ms, width, n - 1, i, j);
      if name in page {
        PageSourcesNamed(ms[n - 1], width, n - 1, name);
        var j' :| j' in ms[n - 1] && name == PdfName(j', width, n - 1);
        PdfNameInjective(j, i, j', n - 1, width);
      }
    }
  }

  /** Every name in the map is the name of an image of the first n pages. */
  lemma {:induction false} SourcesAreNamed<V>(ms: seq<map<int64, V>>, width: int, n: nat, name: string)
      returns (i: nat, j: int64)
    requires 0 <= width <= MaxFmtWidth && n <= |ms|
    requires name in Sources(ms, width, n)
    ensures i < n && j in ms[i] && name == PdfName(j, width, i)
  {
    var prev := Sources(ms, width, n - 1);
    var page := PageSources(ms[n - 1], width, n - 1);
    assert Sources(ms, width, n) == prev + page;
    if name in page {
      PageSourcesNamed(ms[n - 1], width, n - 1, name);
      i := n - 1;
      j :| j in ms[n - 1] && name == PdfName(j, width, n - 1);
    } else {
      i, j := SourcesAreNamed(ms, width, n - 1, name);
    }
  }
}
