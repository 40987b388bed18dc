/** Splitting a part of the Constitution into articles
    (tradegraph/src/rag/ingestion/india_code.py:76-193), from the heading matches on: what the regular
    expression finds is an arbitrary sequence of ordered, disjoint matches. */
module Articles {
  import opened Helpers
  import opened Contamination

  const REPLACEMENT: char := '\U{FFFD}'

  /** A heading: its number as written, the number's leading digits, the stripped title, and its place. */
  datatype Match = Match(number: string, value: int, title: string, start: nat, end: nat)

  datatype Section = Section(name: string, text: string)
  datatype Parsed =
    | Parsed(sections: seq<Section>, dropped: seq<string>, truncated: seq<string>)
    | NoArticles
    | AllGarbled

  ghost predicate Ordered(matches: seq<Match>, length: nat) {
    && (forall i :: 0 <= i < |matches| ==> matches[i].start <= matches[i].end <= length)
    && (forall i, j :: 0 <= i < j < |matches| ==> matches[i].end <= matches[j].start)
  }

  // ---- Bounding the text ------------------------------------------------------------------------

  predicate OccursAt(text: string, part: string, i: nat) { i + |part| <= |text| && text[i..i + |part|] == part }

  /** The first occurrence at or after `from`. */
  function Find(text: string, part: string, from: nat): (r: Option<nat>)
    ensures r.Some? ==> from <= r.value && OccursAt(text, part, r.value)
    ensures forall i: nat :: from <= i && (r == None || i < r.value) ==> !OccursAt(text, part, i)
    decreases |text| - from
  {
    if from + |part| > |text| then None
    else if OccursAt(text, part, from) then Some(from)
    else Find(text, part, from + 1)
  }

  function SliceBetweenMarkers(text: string, startMarker: string, endMarker: string): Option<string> {
    var start := Find(text, startMarker, 0);
    var end := Find(text, endMarker, if start.Some? then start.value + |startMarker| else 0);
    if start.None? || end.None? then None else Some(text[start.value..end.value])
  }

  /** A slice runs from the first start marker to the first end marker after it, and neither is missed:
      there is no slice exactly when no end marker follows the first start marker. */
  lemma SliceMeaning(text: string, startMarker: string, endMarker: string)
    ensures var r := SliceBetweenMarkers(text, startMarker, endMarker);
            && (r.Some? ==> exists s: nat, e: nat :: SliceBounds(text, startMarker, endMarker, s, e) && r.value == text[s..e])
            && (r.None? ==> forall s: nat, e: nat :: !SliceBounds(text, startMarker, endMarker, s, e))
  {
    var start := Find(text, startMarker, 0);
    if start.Some? {
      var end := Find(text, endMarker, start.value + |startMarker|);
      if end.Some? { assert SliceBounds(text, startMarker, endMarker, start.value, end.value); }
    }
  }

  ghost predicate SliceBounds(text: string, startMarker: string, endMarker: string, s: nat, e: nat) {
    && s + |startMarker| <= e <= |text|
    && OccursAt(text, startMarker, s) && (forall i: nat :: i < s ==> !OccursAt(text, startMarker, i))
    && OccursAt(text, endMarker, e) && (forall i: nat :: s + |startMarker| <= i < e ==> !OccursAt(text, endMarker, i))
  }

  // ---- Text helpers -----------------------------------------------------------------------------

  /** Every replacement character becomes a dash between spaces. */
  function Replaced(text: string): (r: string)
    ensures REPLACEMENT !in r
  {
    if text == "" then ""
    else
      var n := |text| - 1;
      Replaced(text[..n]) + if text[n] == REPLACEMENT then " - " else [text[n]]
  }

  /** Runs of white space as single spaces, none in front. */
  function Squeezed(text: string): string {
    if text == "" then ""
    else
      var n := |text| - 1;
      var before := Squeezed(text[..n]);
      if !Space(text[n]) then before + [text[n]]
      else if before == "" || before[|before| - 1] == ' ' then before
      else before + " "
  }

  function Collapsed(text: string): string {
    var s := Squeezed(text);
    if s != "" && s[|s| - 1] == ' ' then s[..|s| - 1] else s
  }

  // ---- Which headings are kept ------------------------------------------------------------------

  predicate Clean(m: Match, low: int, high: int) { low <= m.value <= high && REPLACEMENT !in m.title }

  /** No earlier clean heading has the same number. */
  predicate First(matches: seq<Match>, i: nat, low: int, high: int)
    requires i < |matches|
  {
    Clean(matches[i], low, high)
    && forall j :: 0 <= j < i && Clean(matches[j], low, high) ==> matches[j].number != matches[i].number
  }

  function Kept(matches: seq<Match>, low: int, high: int, n: nat): (r: seq<Match>)
    requires n <= |matches|
  {
    if n == 0 then []
    else Kept(matches, low, high, n - 1) + if First(matches, n - 1, low, high) then [matches[n - 1]] else []
  }

  method KeepHeadings(matches: seq<Match>, low: int, high: int) returns (kept: seq<Match>)
    ensures kept == Kept(matches, low, high, |matches|)
  {
    kept := [];
    var seenNumbers: set<string> := {};
    for i := 0 to |matches|
      invariant kept == Kept(matches, low, high, i)
      invariant forall j :: 0 <= j < i && Clean(matches[j], low, high) ==> matches[j].number in seenNumbers
      invariant forall s :: s in seenNumbers ==> exists j :: 0 <= j < i && Clean(matches[j], low, high) && matches[j].number == s
    {
      var m := matches[i];
      if !(low <= m.value <= high) { continue; }
      if REPLACEMENT in m.title || m.number in seenNumbers { continue; }
      seenNumbers := seenNumbers + {m.number};
      kept := kept + [m];
    }
  }

  // ---- Bodies -----------------------------------------------------------------------------------

  function BodyEnd(kept: seq<Match>, k: nat, length: nat): nat
    requires k < |kept|
  {
    if k + 1 < |kept| then kept[k + 1].start else length
  }

  function Slice(text: string, from: nat, to: nat): string {
    if from <= to <= |text| then text[from..to] else ""
  }

  function RawBody(text: string, kept: seq<Match>, k: nat): string
    requires k < |kept|
  {
    Replaced(Slice(text, kept[k].end, BodyEnd(kept, k, |text|)))
  }

  predicate WasCut(text: string, kept: seq<Match>, k: nat)
    requires k < |kept|
  {
    |Truncated(RawBody(text, kept, k))| < |RawBody(text, kept, k)|
  }

  function Body(text: string, kept: seq<Match>, k: nat): string
    requires k < |kept|
  {
    Collapsed(Truncated(RawBody(text, kept, k)))
  }

  predicate Dropped(text: string, kept: seq<Match>, k: nat)
    requires k < |kept|
  {
    WasCut(text, kept, k) && |Body(text, kept, k)| < 20
  }

  function Name(m: Match): string { "Article " + m.number }

  function SectionFor(text: string, kept: seq<Match>, k: nat): Section
    requires k < |kept|
  {
    Section(Name(kept[k]), Name(kept[k]) + ". " + kept[k].title + ".\n\n" + Body(text, kept, k))
  }

  function Sections(text: string, kept: seq<Match>, n: nat): seq<Section>
    requires n <= |kept|
  {
    if n == 0 then []
    else Sections(text, kept, n - 1) + if Dropped(text, kept, n - 1) then [] else [SectionFor(text, kept, n - 1)]
  }

  function DroppedNames(text: string, kept: seq<Match>, n: nat): seq<string>
    requires n <= |kept|
  {
    if n == 0 then []
    else DroppedNames(text, kept, n - 1) + if Dropped(text, kept, n - 1) then [Name(kept[n - 1])] else []
  }

  function CutNames(text: string, kept: seq<Match>, n: nat): seq<string>
    requires n <= |kept|
  {
    if n == 0 then []
    else
      CutNames(text, kept, n - 1)
      + if WasCut(text, kept, n - 1) && !Dropped(text, kept, n - 1) then [Name(kept[n - 1])] else []
  }

  function Outcome(text: string, kept: seq<Match>): Parsed {
    if kept == [] then NoArticles
    else if Sections(text, kept, |kept|) == [] then AllGarbled
    else Parsed(Sections(text, kept, |kept|), DroppedNames(text, kept, |kept|), CutNames(text, kept, |kept|))
  }

  method ParseArticles(text: string, matches: seq<Match>, low: int, high: int) returns (r: Parsed)
    requires Ordered(matches, |text|)
    ensures r == Outcome(text, Kept(matches, low, high, |matches|))
  {
    hide Collapsed, Replaced, Truncated;
    var kept := KeepHeadings(matches, low, high);
    if kept == [] { return NoArticles; }
    var sections, dropped, truncated := [], [], [];
    for k := 0 to |kept|
      invariant sections == Sections(text, kept, k)
      invariant dropped == DroppedNames(text, kept, k)
      invariant truncated == CutNames(text, kept, k)
    {
      var bodyEnd := if k + 1 < |kept| then kept[k + 1].start else |text|;
      var raw := Replaced(Slice(text, kept[k].end, bodyEnd));
      var cut := TruncateAtContamination(raw);
      var wasTruncated, body := |cut| < |raw|, Collapsed(cut);
      var name := "Article " + kept[k].number;
      if wasTruncated {
        if |body| < 20 {
          dropped := dropped + [name];
          continue;
        }
        truncated := truncated + [name];
      }
      sections := sections + [Section(name, name + ". " + kept[k].title + ".\n\n" + body)];
    }
    if sections == [] { return AllGarbled; }
    r := Parsed(sections, dropped, truncated);
  }

  // ---- Kept headings ----------------------------------------------------------------------------

  /** Where the kept headings stand among the matches. */
  function KeptAt(matches: seq<Match>, low: int, high: int, n: nat): (r: seq<nat>)
    requires n <= |matches|
    ensures forall k :: 0 <= k < |r| ==> r[k] < n
  {
    if n == 0 then []
    else KeptAt(matches, low, high, n - 1) + if First(matches, n - 1, low, high) then [n - 1] else []
  }

  lemma {:induction false} KeptAtMeaning(matches: seq<Match>, low: int, high: int, n: nat)
    requires n <= |matches|
    ensures var at, kept := KeptAt(matches, low, high, n), Kept(matches, low, high, n);
            && |at| == |kept|
            && (forall k :: 0 <= k < |at| ==> kept[k] == matches[at[k]] && First(matches, at[k], low, high))
            && (forall k, l :: 0 <= k < l < |at| ==> at[k] < at[l])
            && (forall i :: 0 <= i < n && First(matches, i, low, high) ==> i in at)
  {
    if n > 0 { KeptAtMeaning(matches, low, high, n - 1); }
  }

  /** The kept headings are matches in text order, have titles without a replacement character and distinct
      numbers in the range; and no number is lost: every such heading's number is that of a kept one. */
  lemma KeptMeaning(matches: seq<Match>, low: int, high: int, length: nat)
    requires Ordered(matches, length)
    ensures var kept := Kept(matches, low, high, |matches|);
            && Ordered(kept, length)
            && (forall k :: 0 <= k < |kept| ==>
                  kept[k] in matches && low <= kept[k].value <= high && '\U{FFFD}' !in kept[k].title)
            && (forall k, l :: 0 <= k < l < |kept| ==> kept[k].number != kept[l].number)
            && (forall i :: 0 <= i < |matches| && low <= matches[i].value <= high && '\U{FFFD}' !in matches[i].title ==>
                  exists k :: 0 <= k < |kept| && kept[k].number == matches[i].number && kept[k].start <= matches[i].start)
  {
    KeptOrdered(matches, low, high, length);
    KeptDistinct(matches, low, high);
    KeptComplete(matches, low, high, length);
    var kept := Kept(matches, low, high, |matches|);
    hide Kept, First;
    forall k | 0 <= k < |kept| ensures kept[k] in matches { KeptAtMeaning(matches, low, high, |matches|); }
  }

  lemma KeptOrdered(matches: seq<Match>, low: int, high: int, length: nat)
    requires Ordered(matches, length)
    ensures Ordered(Kept(matches, low, high, |matches|), length)
  {
    hide Kept, KeptAt, First;
    var at, kept := KeptAt(matches, low, high, |matches|), Kept(matches, low, high, |matches|);
    KeptAtMeaning(matches, low, high, |matches|);
    forall k, l | 0 <= k < l < |kept| ensures kept[k].end <= kept[l].start {
      assert at[k] < at[l] && kept[k] == matches[at[k]] && kept[l] == matches[at[l]];
    }
  }

  lemma KeptDistinct(matches: seq<Match>, low: int, high: int)
    ensures var kept := Kept(matches, low, high, |matches|);
            && (forall k :: 0 <= k < |kept| ==> Clean(kept[k], low, high))
            && (forall k, l :: 0 <= k < l < |kept| ==> kept[k].number != kept[l].number)
  {
    hide Kept, KeptAt, Clean;
    var at, kept := KeptAt(matches, low, high, |matches|), Kept(matches, low, high, |matches|);
    KeptAtMeaning(matches, low, high, |matches|);
    forall k, l | 0 <= k < l < |kept| ensures kept[k].number != kept[l].number {
      assert First(matches, at[k], low, high) && First(matches, at[l], low, high) && at[k] < at[l];
    }
  }

  lemma KeptComplete(matches: seq<Match>, low: int, high: int, length: nat)
    requires Ordered(matches, length)
    ensures var kept := Kept(matches, low, high, |matches|);
            forall i :: 0 <= i < |matches| && Clean(matches[i], low, high) ==>
              exists k :: 0 <= k < |kept| && kept[k].number == matches[i].number && kept[k].start <= matches[i].start
  {
    hide Kept, KeptAt, Clean, First;
    var at, kept := KeptAt(matches, low, high, |matches|), Kept(matches, low, high, |matches|);
    KeptAtMeaning(matches, low, high, |matches|);
    forall i | 0 <= i < |matches| && Clean(matches[i], low, high)
      ensures exists k :: 0 <= k < |kept| && kept[k].number == matches[i].number && kept[k].start <= matches[i].start
    {
      var f := FirstWithNumber(matches, low, high, i);
      assert f in at;
      var k :| 0 <= k < |at| && at[k] == f;
      assert kept[k] == matches[f];
    }
  }

  lemma {:induction false} FirstWithNumber(matches: seq<Match>, low: int, high: int, i: nat) returns (f: nat)
    requires i < |matches| && Clean(matches[i], low, high)
    ensures f <= i && First(matches, f, low, high) && matches[f].number == matches[i].number
  {
    f := i;
    if !First(matches, i, low, high) {
      var j :| 0 <= j < i && Clean(matches[j], low, high) && matches[j].number == matches[i].number;
      f := FirstWithNumber(matches, low, high, j);
    }
  }

  // ---- Partition --------------------------------------------------------------------------------

  function Pieces(text: string, kept: seq<Match>, k: nat): string
    requires k <= |kept|
    decreases |kept| - k
  {
    if k == |kept| then ""
    else
      Slice(text, kept[k].start, kept[k].end) + Slice(text, kept[k].end, BodyEnd(kept, k, |text|)) + Pieces(text, kept, k + 1)
  }

  lemma ThreeParts(text: string, s: nat, e: nat, b: nat)
    requires s <= e <= b <= |text|
    ensures Slice(text, s, e) + Slice(text, e, b) + text[b..] == text[s..]
  {
    assert text[s..e] + text[e..b] == text[s..b];
    assert text[s..b] + text[b..] == text[s..];
  }

  /** Heading and body slices, laid end to end, are the text from the first kept heading on: headings that
      were not kept stay in the body of the kept one before them. */
  lemma {:induction false} ArticlesPartition(text: string, kept: seq<Match>, k: nat)
    requires Ordered(kept, |text|) && k < |kept|
    ensures Pieces(text, kept, k) == text[kept[k].start..]
    decreases |kept| - k
  {
    hide Slice;
    ThreeParts(text, kept[k].start, kept[k].end, BodyEnd(kept, k, |text|));
    if k + 1 < |kept| { ArticlesPartition(text, kept, k + 1); }
  }

  // ---- Accounting -------------------------------------------------------------------------------

  function SurvivorsAt(text: string, kept: seq<Match>, dropped: bool, n: nat): (r: seq<nat>)
    requires n <= |kept|
    ensures forall k :: 0 <= k < |r| ==> r[k] < n
  {
    if n == 0 then []
    else SurvivorsAt(text, kept, dropped, n - 1) + if Dropped(text, kept, n - 1) == dropped then [n - 1] else []
  }

  lemma {:induction false} SurvivorsOrdered(text: string, kept: seq<Match>, dropped: bool, n: nat)
    requires n <= |kept|
    ensures Increasing(SurvivorsAt(text, kept, dropped, n))
  {
    hide Dropped;
    if n > 0 { SurvivorsOrdered(text, kept, dropped, n - 1); }
  }

  lemma {:induction false} SurvivorsExactly(text: string, kept: seq<Match>, dropped: bool, n: nat, i: nat)
    requires n <= |kept| && i < n
    ensures i in SurvivorsAt(text, kept, dropped, n) <==> Dropped(text, kept, i) == dropped
  {
    hide Dropped;
    if i < n - 1 {
      SurvivorsExactly(text, kept, dropped, n - 1, i);
    } else {
      assert i !in SurvivorsAt(text, kept, dropped, n - 1);
    }
  }

  lemma {:induction false} SectionsAt(text: string, kept: seq<Match>, n: nat)
    requires n <= |kept|
    ensures var r, sections := SurvivorsAt(text, kept, false, n), Sections(text, kept, n);
            && |sections| == |r| && forall k :: 0 <= k < |r| ==> sections[k] == SectionFor(text, kept, r[k])
  {
    hide Dropped, SectionFor;
    if n > 0 { SectionsAt(text, kept, n - 1); }
  }

  lemma {:induction false} DroppedAt(text: string, kept: seq<Match>, n: nat)
    requires n <= |kept|
    ensures var r, names := SurvivorsAt(text, kept, true, n), DroppedNames(text, kept, n);
            && |names| == |r| && forall k :: 0 <= k < |r| ==> names[k] == Name(kept[r[k]])
  {
    hide Dropped;
    if n > 0 { DroppedAt(text, kept, n - 1); }
  }

  /** Sections and dropped articles account for every kept heading exactly once, each in text order; and an
      article is dropped exactly when its body was cut to fewer than 20 characters. */
  lemma EveryHeadingOnce(text: string, kept: seq<Match>)
    ensures var inside, outside := SurvivorsAt(text, kept, false, |kept|), SurvivorsAt(text, kept, true, |kept|);
            var sections, dropped := Sections(text, kept, |kept|), DroppedNames(text, kept, |kept|);
            && |sections| == |inside| && |dropped| == |outside|
            && (forall k :: 0 <= k < |inside| ==> sections[k] == SectionFor(text, kept, inside[k]))
            && (forall k :: 0 <= k < |outside| ==> dropped[k] == Name(kept[outside[k]]))
            && Increasing(inside) && Increasing(outside)
            && (forall i :: 0 <= i < |kept| ==> (i in inside <==> !Dropped(text, kept, i)))
            && (forall i :: 0 <= i < |kept| ==> (i in outside <==> Dropped(text, kept, i)))
  {
    hide Dropped, SectionFor, SurvivorsAt, Sections, DroppedNames;
    SurvivorsOrdered(text, kept, false, |kept|);
    SurvivorsOrdered(text, kept, true, |kept|);
    forall i | 0 <= i < |kept|
      ensures i in SurvivorsAt(text, kept, false, |kept|) <==> !Dropped(text, kept, i)
      ensures i in SurvivorsAt(text, kept, true, |kept|) <==> Dropped(text, kept, i)
    {
      SurvivorsExactly(text, kept, false, |kept|, i);
      SurvivorsExactly(text, kept, true, |kept|, i);
    }
    SectionsAt(text, kept, |kept|);
    DroppedAt(text, kept, |kept|);
  }

  // ---- Clean output -----------------------------------------------------------------------------

  function Visible(text: string): string {
    if text == "" then ""
    else Visible(text[..|text| - 1]) + if Space(text[|text| - 1]) then "" else [text[|text| - 1]]
  }

  ghost predicate Tidy(s: string) {
    && (forall i :: 0 <= i < |s| && Space(s[i]) ==> s[i] == ' ' && i > 0)
    && (forall i :: 0 < i < |s| && s[i] == ' ' ==> s[i - 1] != ' ')
  }

  lemma VisibleSnoc(s: string, c: char)
    ensures Visible(s + [c]) == Visible(s) + if Space(c) then "" else [c]
  {
    assert (s + [c])[..|s|] == s;
  }

  lemma {:induction false} SqueezedTidy(text: string)
    ensures Tidy(Squeezed(text))
    ensures forall c :: c in Squeezed(text) ==> c == ' ' || c in text
  {
    if text != "" { SqueezedTidy(text[..|text| - 1]); }
  }

  lemma {:induction false} SqueezedVisible(text: string)
    ensures Visible(Squeezed(text)) == Visible(text)
  {
    if text != "" {
      var n := |text| - 1;
      SqueezedVisible(text[..n]);
      VisibleSnoc(Squeezed(text[..n]), text[n]);
      VisibleSnoc(Squeezed(text[..n]), ' ');
    }
  }

  /** Collapsing white space keeps every other character in order and leaves only single spaces between
      them, none at either end. */
  lemma CollapsedMeaning(text: string)
    ensures var r := Collapsed(text);
            && Visible(r) == Visible(text) && Tidy(r)
            && (r != "" ==> !Space(r[|r| - 1]))
            && (forall c :: c in r ==> c == ' ' || c in text)
  {
    SqueezedTidy(text);
    SqueezedVisible(text);
    var s := Squeezed(text);
    if s != "" && s[|s| - 1] == ' ' {
      assert s[..|s| - 1] + [' '] == s;
      VisibleSnoc(s[..|s| - 1], ' ');
    }
  }

  /** No published article shows a replacement character, and its body comes from a prefix of its slice
      with at most 4 non-ASCII characters beyond 10% of its length. */
  lemma PublishedIsClean(text: string, matches: seq<Match>, low: int, high: int, k: nat)
    requires Ordered(matches, |text|)
    requires forall i :: 0 <= i < |matches| ==> REPLACEMENT !in matches[i].number
    requires k < |Kept(matches, low, high, |matches|)|
    ensures var kept := Kept(matches, low, high, |matches|);
            && REPLACEMENT !in SectionFor(text, kept, k).text
            && Truncated(RawBody(text, kept, k)) <= RawBody(text, kept, k)
            && 10 * Foreign(Truncated(RawBody(text, kept, k))) <= |Truncated(RawBody(text, kept, k))| + 40
            && (!WasCut(text, kept, k) ==> 10 * Foreign(RawBody(text, kept, k)) <= |RawBody(text, kept, k)|)
  {
    hide *;
    var kept := Kept(matches, low, high, |matches|);
    var raw := RawBody(text, kept, k);
    KeptNumbersClean(matches, low, high);
    KeptDistinct(matches, low, high);
    TitleClean(kept[k], low, high);
    BodyClean(text, kept, k);
    SectionClean(text, kept, k);
    ForeignBound(raw);
    if !WasCut(text, kept, k) { WholeWhenUncut(text, kept, k); }
  }

  lemma KeptNumbersClean(matches: seq<Match>, low: int, high: int)
    requires forall i :: 0 <= i < |matches| ==> REPLACEMENT !in matches[i].number
    ensures var kept := Kept(matches, low, high, |matches|);
            forall k :: 0 <= k < |kept| ==> REPLACEMENT !in kept[k].number
  {
    hide Kept, KeptAt, First;
    KeptAtMeaning(matches, low, high, |matches|);
  }

  lemma TitleClean(m: Match, low: int, high: int)
    requires Clean(m, low, high)
    ensures REPLACEMENT !in m.title
  {
  }

  lemma BodyClean(text: string, kept: seq<Match>, k: nat)
    requires k < |kept|
    ensures REPLACEMENT !in Body(text, kept, k)
  {
    hide Replaced, Truncated, Collapsed;
    var raw := RawBody(text, kept, k);
    CollapsedMeaning(Truncated(raw));
    assert forall c :: c in Truncated(raw) ==> c in raw;
  }

  lemma SectionClean(text: string, kept: seq<Match>, k: nat)
    requires k < |kept| && REPLACEMENT !in kept[k].number && REPLACEMENT !in kept[k].title && REPLACEMENT !in Body(text, kept, k)
    ensures REPLACEMENT !in SectionFor(text, kept, k).text
  {
    hide Body;
  }

  lemma WholeWhenUncut(text: string, kept: seq<Match>, k: nat)
    requires k < |kept| && !WasCut(text, kept, k)
    ensures Truncated(RawBody(text, kept, k)) == RawBody(text, kept, k)
  {
    hide Truncated, RawBody;
  }
}
