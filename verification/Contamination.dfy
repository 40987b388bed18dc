/** Cutting a text where it stops being mostly ASCII
    (tradegraph/src/rag/ingestion/india_code.py:196-219): windows of 60 characters every 20, each of which
    must be at least 90% ASCII. */
module Contamination {
  const WINDOW: nat := 60
  const STEP: nat := 20

  predicate Ascii(c: char) { c as int < 128 }

  function AsciiCount(text: string): (r: nat)
    ensures r <= |text|
  {
    if text == "" then 0 else AsciiCount(text[..|text| - 1]) + if Ascii(text[|text| - 1]) then 1 else 0
  }

  function Foreign(text: string): nat { |text| - AsciiCount(text) }

  /** `ascii / length >= 0.9`, in whole numbers. */
  predicate MostlyAscii(text: string) { 10 * AsciiCount(text) >= 9 * |text| }

  method IsMostlyAscii(text: string) returns (r: bool)
    ensures r == MostlyAscii(text)
  {
    if text == "" { return true; }
    var count := 0;
    for i := 0 to |text|
      invariant count == AsciiCount(text[..i])
    {
      assert text[..i + 1][..i] == text[..i];
      if Ascii(text[i]) { count := count + 1; }
    }
    assert text[..|text|] == text;
    r := 10 * count >= 9 * |text|;
  }

  function Window(text: string, start: nat): string
    requires start <= |text|
  {
    text[start..if start + WINDOW <= |text| then start + WINDOW else |text|]
  }

  function Truncated(text: string): (r: string)
    ensures r <= text
  {
    CutFrom(text, 0)
  }

  /** The text cut at the first contaminated window from `start` on. */
  function CutFrom(text: string, start: nat): (r: string)
    ensures r <= text
    decreases |text| - start
  {
    if start >= |text| then text
    else if !MostlyAscii(Window(text, start)) then text[..start]
    else CutFrom(text, start + STEP)
  }

  method TruncateAtContamination(text: string) returns (r: string)
    ensures r == Truncated(text)
  {
    var start := 0;
    while start < |text|
      invariant start >= 0 && CutFrom(text, start) == CutFrom(text, 0)
      decreases |text| - start
    {
      var ok := IsMostlyAscii(Window(text, start));
      if !ok { return text[..start]; }
      start := start + STEP;
    }
    r := text;
  }

  // ---- Counting ---------------------------------------------------------------------------------

  lemma {:induction false} AsciiSplit(a: string, b: string)
    ensures AsciiCount(a + b) == AsciiCount(a) + AsciiCount(b)
  {
    if b == "" {
      assert a + b == a;
    } else {
      var n := |b| - 1;
      AsciiSplit(a, b[..n]);
      assert (a + b)[..|a + b| - 1] == a + b[..n];
    }
  }

  lemma ForeignSplit(text: string, k: nat)
    requires k <= |text|
    ensures Foreign(text) == Foreign(text[..k]) + Foreign(text[k..])
  {
    AsciiSplit(text[..k], text[k..]);
    assert text[..k] + text[k..] == text;
  }

  lemma {:induction false} AllAscii(text: string)
    requires forall i :: 0 <= i < |text| ==> Ascii(text[i])
    ensures Foreign(text) == 0
  {
    if text != "" { AllAscii(text[..|text| - 1]); }
  }

  lemma {:induction false} AllForeign(text: string)
    requires forall i :: 0 <= i < |text| ==> !Ascii(text[i])
    ensures Foreign(text) == |text|
  {
    if text != "" { AllForeign(text[..|text| - 1]); }
  }

  // ---- Where the cut falls ----------------------------------------------------------------------

  /** No window from `from` up to the cut is contaminated. */
  ghost predicate CleanUpTo(text: string, from: nat, cut: nat) {
    forall s: nat :: from <= s < cut && s < |text| && (s - from) % STEP == 0 ==> MostlyAscii(Window(text, s))
  }

  /** The cut is the first multiple of the step whose window is contaminated; without one there is none. */
  lemma {:induction false} CutIsFirst(text: string, start: nat)
    requires start % STEP == 0
    ensures var r := CutFrom(text, start);
            && CleanUpTo(text, start, |r|)
            && (r == text || (start <= |r| < |text| && |r| % STEP == 0 && !MostlyAscii(Window(text, |r|)) && r == text[..|r|]))
    decreases |text| - start
  {
    hide MostlyAscii, Window;
    if start < |text| && MostlyAscii(Window(text, start)) {
      CutIsFirst(text, start + STEP);
      var r := CutFrom(text, start);
      forall s: nat | start <= s < |r| && s < |text| && (s - start) % STEP == 0 ensures MostlyAscii(Window(text, s)) {
        if s != start { LaterStep(s, start); }
      }
    }
  }

  lemma LaterStep(s: nat, start: nat)
    requires s > start && (s - start) % STEP == 0
    ensures s >= start + STEP && (s - (start + STEP)) % STEP == 0
  {
  }

  lemma WindowsAreClean(text: string, s: nat)
    requires s % STEP == 0 && s < |Truncated(text)|
    ensures 10 * Foreign(Window(text, s)) <= |Window(text, s)| <= WINDOW
  {
    CutIsFirst(text, 0);
  }

  /** Whole windows laid end to end. */
  lemma {:induction false} TiledForeign(text: string, k: nat)
    requires k * WINDOW <= |Truncated(text)|
    ensures 10 * Foreign(text[..k * WINDOW]) <= k * WINDOW
  {
    hide Truncated, Foreign, Window;
    if k == 0 {
      AllAscii(text[..0]);
    } else {
      var a, b := (k - 1) * WINDOW, k * WINDOW;
      assert b == a + WINDOW;
      TiledForeign(text, k - 1);
      TileStarts(k - 1);
      WindowsAreClean(text, a);
      WholeWindow(text, a);
      ForeignSplit(text[..b], a);
      assert text[..b][..a] == text[..a];
      assert text[..b][a..] == text[a..b];
    }
  }

  lemma TileStarts(k: nat)
    ensures k * WINDOW % STEP == 0
  {
    assert k * WINDOW == 3 * k * STEP;
  }

  lemma WholeWindow(text: string, a: nat)
    requires a + WINDOW <= |text|
    ensures Window(text, a) == text[a..a + WINDOW]
  {
  }

  /** A text returned whole has at most 10% non-ASCII characters; a shorter prefix has at most 4 beyond 10%
      of its length, and none beyond it when its length is a multiple of the window. */
  lemma ForeignBound(text: string)
    ensures var r := Truncated(text);
            && (r == text ==> 10 * Foreign(r) <= |r|)
            && 10 * Foreign(r) <= |r| + 40
            && (|r| % WINDOW == 0 ==> 10 * Foreign(r) <= |r|)
  {
    hide Truncated, Foreign, Window;
    var r := Truncated(text);
    var k, a := |r| / WINDOW, |r| / WINDOW * WINDOW;
    TiledForeign(text, k);
    CutPlace(text);
    ForeignSplit(r, a);
    assert r[..a] == text[..a];
    if a < |r| {
      RestForeign(text, a);
      if r != text { CutRemainder(|r|, a); }
    } else {
      assert r[a..] == "";
      AllAscii("");
    }
  }

  lemma CutPlace(text: string)
    ensures Truncated(text) <= text && (Truncated(text) != text ==> |Truncated(text)| % STEP == 0)
  {
    CutIsFirst(text, 0);
  }

  /** What the last window that begins before the cut leaves in front of it. */
  lemma RestForeign(text: string, a: nat)
    requires var r := Truncated(text); a % STEP == 0 && a < |r| <= a + WINDOW
    ensures var r := Truncated(text);
            10 * Foreign(r[a..]) <= if r == text then |r| - a else WINDOW
  {
    hide Truncated, Foreign;
    var r, w := Truncated(text), Window(text, a);
    WindowsAreClean(text, a);
    ForeignSplit(w, |r| - a);
    assert w[..|r| - a] == r[a..];
    if r == text { assert w == r[a..]; }
  }

  lemma CutRemainder(cut: nat, a: nat)
    requires cut % STEP == 0 && a == cut / WINDOW * WINDOW && a < cut
    ensures cut - a >= 20
  {
  }

  // ---- A clean text followed by contamination ---------------------------------------------------

  /** `p` ASCII characters, then at least 26 that are not; anything may follow. */
  ghost predicate CleanThenForeign(text: string, p: nat) {
    && p + 26 <= |text|
    && (forall i :: 0 <= i < p ==> text[i] as int < 128)
    && (forall i :: p <= i < p + 26 ==> text[i] as int >= 128)
  }

  lemma StretchForeign(text: string, p: nat, s: nat, e: nat)
    requires CleanThenForeign(text, p) && s <= p && s <= e <= p + 26
    ensures Foreign(text[s..e]) == if e <= p then 0 else e - p
  {
    if e <= p {
      AllAscii(text[s..e]);
    } else {
      ForeignSplit(text[s..e], p - s);
      assert text[s..e][..p - s] == text[s..p];
      assert text[s..e][p - s..] == text[p..e];
      AllAscii(text[s..p]);
      AllForeign(text[p..e]);
    }
  }

  /** The first multiple of the step from which a whole window reaches 7 characters into the rest. */
  function CutPoint(p: nat): (c: nat)
    ensures c % STEP == 0 && c + 53 >= p && (c > 0 ==> c + 34 <= p)
  {
    (if p <= 53 then 0 else p - 53 + 19) / 20 * 20
  }

  lemma WindowAtCutContaminated(text: string, p: nat)
    requires CleanThenForeign(text, p)
    ensures CutPoint(p) < |text| && !MostlyAscii(Window(text, CutPoint(p)))
  {
    var c := CutPoint(p);
    var w := Window(text, c);
    var e := if c + |w| <= p + 26 then c + |w| else p + 26;
    StretchForeign(text, p, c, e);
    ForeignSplit(w, e - c);
    assert w[..e - c] == text[c..e];
  }

  lemma WindowsBeforeCutClean(text: string, p: nat, s: nat)
    requires CleanThenForeign(text, p) && s % STEP == 0 && s < CutPoint(p)
    ensures MostlyAscii(Window(text, s))
  {
    assert s + 53 < p by { SmallerMultiple(s, p); }
    StretchForeign(text, p, s, s + WINDOW);
  }

  lemma SmallerMultiple(s: nat, p: nat)
    requires s % STEP == 0 && s < CutPoint(p)
    ensures s + 53 < p
  {
  }

  /** The kept prefix is exactly as long as the cut point of the clean part: it is all ASCII and loses at
      most 53 clean characters. */
  lemma CutExactly(text: string, p: nat)
    requires CleanThenForeign(text, p)
    ensures Truncated(text) == text[..CutPoint(p)]
    ensures |Truncated(text)| <= p <= |Truncated(text)| + 53
    ensures Foreign(Truncated(text)) == 0
  {
    var r, c := Truncated(text), CutPoint(p);
    CutIsFirst(text, 0);
    WindowAtCutContaminated(text, p);
    if |r| < c { WindowsBeforeCutClean(text, p, |r|); }
    AllAscii(text[..c]);
  }

  // ---- What the kept prefix is not --------------------------------------------------------------

  /** The first position that is a multiple of the step and begins a contaminated window. */
  ghost predicate FirstCut(text: string, c: nat) {
    && c % STEP == 0 && c < |text| && !MostlyAscii(Window(text, c)) && CleanUpTo(text, 0, c)
  }

  lemma CutAt(text: string, c: nat)
    requires FirstCut(text, c)
    ensures Truncated(text) == text[..c]
  {
    hide MostlyAscii, Window;
    CutIsFirst(text, 0);
  }

  lemma WholeOrCut(text: string)
    ensures Truncated(text) == text || FirstCut(text, |Truncated(text)|)
    ensures Truncated(text) == text <==> CleanUpTo(text, 0, |text|)
  {
    hide MostlyAscii, Window;
    CutIsFirst(text, 0);
  }

  /** A window of the kept prefix is the text's own, unless it reaches over the cut. */
  lemma WindowOfPrefix(text: string, c: nat, s: nat)
    requires s <= c <= |text|
    ensures Window(text[..c], s) == if s + WINDOW <= c then Window(text, s) else text[s..c]
  {
  }

  /** A second pass changes nothing exactly when the stretches in front of the cut that are shorter than a
      window are mostly ASCII too. */
  lemma IdempotentOnPrefix(text: string)
    ensures var r := Truncated(text);
            Truncated(r) == r <==> forall s: nat :: s % STEP == 0 && s < |r| < s + WINDOW ==> MostlyAscii(r[s..])
  {
    hide MostlyAscii, Window;
    var r := Truncated(text);
    var c := |r|;
    WholeOrCut(text);
    WholeOrCut(r);
    if r != text {
      assert r == text[..c];
      forall s: nat | s % STEP == 0 && s < c
        ensures MostlyAscii(Window(r, s)) <==> (s + WINDOW <= c || MostlyAscii(r[s..]))
      {
        WindowOfPrefix(text, c, s);
        assert MostlyAscii(Window(text, s));
        assert text[..c][s..] == text[s..c];
      }
    } else {
      forall s: nat | s % STEP == 0 && s < |r| < s + WINDOW ensures MostlyAscii(r[s..]) {
        WindowOfPrefix(text, c, s);
        assert text[..c] == text && text[s..c] == r[s..];
        assert MostlyAscii(Window(text, s));
      }
    }
  }

  /** The same on the text alone. Without a contaminated window a second pass changes nothing; with the first
      one at `c`, exactly when the last 20 and the last 40 characters before `c` are mostly ASCII. */
  lemma IdempotentExactly(text: string)
    ensures CleanUpTo(text, 0, |text|) ==> Truncated(Truncated(text)) == Truncated(text) == text
    ensures forall c: nat :: FirstCut(text, c) ==>
              (Truncated(Truncated(text)) == Truncated(text) <==>
                (c >= 20 ==> MostlyAscii(text[c - 20..c])) && (c >= 40 ==> MostlyAscii(text[c - 40..c])))
  {
    hide MostlyAscii, Window, CleanUpTo;
    WholeOrCut(text);
    forall c: nat | FirstCut(text, c)
      ensures Truncated(Truncated(text)) == Truncated(text) <==>
                (c >= 20 ==> MostlyAscii(text[c - 20..c])) && (c >= 40 ==> MostlyAscii(text[c - 40..c]))
    {
      CutAt(text, c);
      IdempotentOnPrefix(text);
      var r := text[..c];
      ShortStretches(c);
      assert c >= 20 ==> r[c - 20..] == text[c - 20..c];
      assert c >= 40 ==> r[c - 40..] == text[c - 40..c];
    }
  }

  lemma ShortStretches(c: nat)
    requires c % STEP == 0
    ensures forall s: nat :: s % STEP == 0 && s < c < s + WINDOW <==> s == c - 20 || s == c - 40
  {
  }

  /** `p` is the position of the first character that is not ASCII, or the end of the text. */
  ghost predicate FirstForeign(text: string, p: nat) {
    && p <= |text| && (forall i :: 0 <= i < p ==> text[i] as int < 128)
    && (p < |text| ==> text[p] as int >= 128)
  }

  ghost predicate ContaminatedBy(text: string, p: nat) {
    exists s: nat :: s % STEP == 0 && s <= p && s < |text| && !MostlyAscii(Window(text, s))
  }

  /** The kept prefix is wholly ASCII exactly when the text is, or a contaminated window begins no later than
      the first character that is not. */
  lemma WhollyAsciiExactly(text: string, p: nat)
    requires FirstForeign(text, p)
    ensures Foreign(Truncated(text)) == 0 <==> p == |text| || ContaminatedBy(text, p)
  {
    hide MostlyAscii, Window, Foreign;
    WholeOrCut(text);
    var r := Truncated(text);
    PrefixForeign(text, p, |r|);
    assert r == text[..|r|];
    if r != text && |r| <= p { assert ContaminatedBy(text, p); }
    if ContaminatedBy(text, p) {
      var s: nat :| s % STEP == 0 && s <= p && s < |text| && !MostlyAscii(Window(text, s));
      assert |r| <= s;
    }
  }

  lemma PrefixForeign(text: string, p: nat, c: nat)
    requires FirstForeign(text, p) && c <= |text|
    ensures Foreign(text[..c]) == 0 <==> c <= p
  {
    if c <= p {
      AllAscii(text[..c]);
    } else {
      ForeignSplit(text[..c], p);
      ForeignSplit(text[..c][p..], 1);
      assert text[..c][p..][..1] == [text[p]];
      AllForeign([text[p]]);
    }
  }

  /** It is the longest prefix that is wholly ASCII exactly when the text is wholly ASCII, or the first
      contaminated window begins with the first character that is not. */
  lemma LongestExactly(text: string, p: nat)
    requires FirstForeign(text, p)
    ensures Truncated(text) == text[..p] <==> p == |text| || FirstCut(text, p)
  {
    hide MostlyAscii, Window;
    WholeOrCut(text);
    if p == |text| {
      AsciiIsWhole(text);
    } else if FirstCut(text, p) {
      CutAt(text, p);
    }
  }

  lemma AsciiIsWhole(text: string)
    requires forall i :: 0 <= i < |text| ==> Ascii(text[i])
    ensures Truncated(text) == text
  {
    hide Foreign;
    WholeOrCut(text);
    forall s: nat | s < |text| ensures MostlyAscii(Window(text, s)) {
      AllAscii(Window(text, s));
      ForeignMeansLess(Window(text, s));
    }
  }

  lemma ForeignMeansLess(text: string)
    ensures Foreign(text) == 0 ==> MostlyAscii(text)
  {
  }

  /** A text whose kept prefix is neither wholly ASCII nor the longest that is, and which a second pass empties:
      near the first cut, the windows of the second pass are shorter. */
  lemma NotIdempotent(text: string)
    requires |text| == 80
    requires forall i :: 0 <= i < 80 ==> (text[i] as int < 128 <==> 3 <= i < 60)
    ensures Truncated(text) == text[..20] && Truncated(Truncated(text)) == ""
    ensures FirstForeign(text, 0) && Foreign(Truncated(text)) == 3 && Truncated(text) != text[..0]
  {
    AllForeign(text[..3]);
    AllAscii(text[3..20]);
    AllAscii(text[20..60]);
    AllForeign(text[60..80]);
    ForeignSplit(text[..20], 3);
    ForeignSplit(text[..60], 20);
    ForeignSplit(text[20..80], 40);
    assert text[..20][..3] == text[..3];
    assert text[..20][3..] == text[3..20];
    assert text[..60][..20] == text[..20];
    assert text[..60][20..] == text[20..60];
    assert text[20..80][..40] == text[20..60];
    assert text[20..80][40..] == text[60..80];
    assert Window(text, 0) == text[..60];
    assert Window(text, 20) == text[20..80];
    assert CutFrom(text, 20) == text[..20];
    assert Window(text[..20], 0) == text[..20];
  }
}
