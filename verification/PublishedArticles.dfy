/** What a published article holds (tradegraph/src/rag/ingestion/india_code.py:132-193). */
module PublishedArticles {
  import opened Helpers
  import opened Contamination
  import opened Articles

  // ---- Visible characters -----------------------------------------------------------------------

  lemma VisibleOne(c: char)
    ensures Visible([c]) == if 9 <= c as int <= 13 || 28 <= c as int <= 32 then "" else [c]
  {
    assert [c][..0] == "";
    assert Visible([c][..0]) == "";
  }

  lemma {:induction false} VisibleWord(w: string)
    requires forall i :: 0 <= i < |w| ==> !Space(w[i])
    ensures Visible(w) == w
  {
    if w != "" { VisibleWord(w[..|w| - 1]); }
  }

  lemma {:induction false} VisibleConcat(a: string, b: string)
    ensures Visible(a + b) == Visible(a) + Visible(b)
  {
    if b == "" {
      assert a + b == a;
    } else {
      var n := |b| - 1;
      VisibleConcat(a, b[..n]);
      assert (a + b)[..|a + b| - 1] == a + b[..n];
    }
  }

  lemma VisiblePrefix(a: string, b: string)
    requires a <= b
    ensures Visible(a) <= Visible(b)
  {
    VisibleConcat(a, b[|a|..]);
    assert a + b[|a|..] == b;
  }

  // ---- Replacement characters -------------------------------------------------------------------

  lemma ReplacedSnoc(s: string, c: char)
    ensures Replaced(s + [c]) == Replaced(s) + if c == REPLACEMENT then " - " else [c]
  {
    assert (s + [c])[..|s|] == s;
  }

  lemma {:induction false} ReplacedConcat(a: string, b: string)
    ensures Replaced(a + b) == Replaced(a) + Replaced(b)
  {
    if b == "" {
      assert a + b == a && Replaced("") == "";
    } else {
      hide Replaced;
      var n := |b| - 1;
      var front, c := b[..n], b[n];
      assert b == front + [c];
      Regroup(a, front, [c]);
      ReplacedConcat(a, front);
      ReplacedSnoc(front, c);
      ReplacedSnoc(a + front, c);
      Regroup(Replaced(a), Replaced(front), if c == REPLACEMENT then " - " else [c]);
    }
  }

  lemma {:induction false} ReplacedPlain(text: string)
    requires '\U{FFFD}' !in text
    ensures Replaced(text) == text
  {
    if text != "" {
      var n := |text| - 1;
      ReplacedPlain(text[..n]);
      assert text[n] in text;
    }
  }

  /** Each replacement character becomes a dash between spaces, and nothing else changes. */
  lemma ReplacedMeaning(before: string, after: string)
    requires '\U{FFFD}' !in before
    ensures Replaced(before + "\U{FFFD}" + after) == before + " - " + Replaced(after)
    ensures Replaced(before) == before
  {
    ReplacedPlain(before);
    ReplacedConcat(before + "\U{FFFD}", after);
    assert (before + "\U{FFFD}")[..|before|] == before;
  }

  ghost predicate DashedOf(shown: string, original: string) {
    |shown| == |original| && forall i :: 0 <= i < |shown| ==> shown[i] == if original[i] == '\U{FFFD}' then '-' else original[i]
  }

  lemma {:induction false} ReplacedVisible(text: string)
    ensures DashedOf(Visible(Replaced(text)), Visible(text))
  {
    if text != "" {
      var n := |text| - 1;
      ReplacedVisible(text[..n]);
      LastVisible(Replaced(text[..n]), text[n]);
    }
  }

  lemma LastVisible(before: string, c: char)
    ensures Visible(before + if c == REPLACEMENT then " - " else [c]) ==
              Visible(before) + if c == REPLACEMENT then "-" else if Space(c) then "" else [c]
  {
    hide Visible;
    if c == REPLACEMENT {
      assert before + " - " == before + [' '] + ['-'] + [' '];
      VisibleSnoc(before + [' '] + ['-'], ' ');
      VisibleSnoc(before + [' '], '-');
      VisibleSnoc(before, ' ');
    } else {
      VisibleSnoc(before, c);
    }
  }

  // ---- Words ------------------------------------------------------------------------------------

  ghost predicate Word(s: string) { s != "" && forall i :: 0 <= i < |s| ==> !Space(s[i]) }

  /** The words with one more character, which begins a word when it is apart from the last one. */
  function Added(words: seq<string>, apart: bool, c: char): seq<string> {
    if Space(c) then words
    else if apart || words == [] then words + [[c]]
    else words[..|words| - 1] + [words[|words| - 1] + [c]]
  }

  predicate Apart(text: string) { text == "" || Space(text[|text| - 1]) }

  /** The words of a text, as Python's `split()` gives them. */
  function Words(text: string): (r: seq<string>)
    ensures forall k :: 0 <= k < |r| ==> Word(r[k])
    ensures !Apart(text) ==> r != []
  {
    if text == "" then []
    else
      var n := |text| - 1;
      Added(Words(text[..n]), Apart(text[..n]), text[n])
  }

  lemma WordsSnoc(s: string, c: char)
    ensures Words(s + [c]) == Added(Words(s), Apart(s), c)
  {
    assert (s + [c])[..|s|] == s;
  }

  lemma {:induction false} OneWord(w: string)
    requires Word(w)
    ensures Words(w) == [w]
  {
    var n := |w| - 1;
    assert w == w[..n] + [w[n]];
    WordsSnoc(w[..n], w[n]);
    if n > 0 {
      OneWord(w[..n]);
    } else {
      assert w[..n] == "" && Words("") == [];
      hide Words;
    }
  }

  /** White space parts words, so the words of a text are the runs between its white space. */
  lemma {:induction false} WordsConcat(a: string, c: char, b: string)
    requires Space(c)
    ensures Words(a + [c] + b) == Words(a) + Words(b)
  {
    if b == "" {
      assert a + [c] + b == a + [c];
      WordsSnoc(a, c);
    } else {
      var n := |b| - 1;
      var before := a + [c] + b[..n];
      assert a + [c] + b == before + [b[n]] && b == b[..n] + [b[n]];
      assert before[|before| - 1] == if n == 0 then c else b[n - 1];
      hide Words, Word, Added;
      WordsConcat(a, c, b[..n]);
      WordsSnoc(before, b[n]);
      WordsSnoc(b[..n], b[n]);
      AddedConcat(Words(a), Words(b[..n]), Apart(before), b[n]);
    }
  }

  lemma AddedConcat(a: seq<string>, b: seq<string>, apart: bool, c: char)
    requires apart || b != []
    ensures Added(a + b, apart, c) == a + Added(b, apart, c)
  {
    if !apart { assert (a + b)[..|a + b| - 1] == a + b[..|b| - 1]; }
  }

  lemma {:induction false} SqueezedWords(text: string)
    ensures Squeezed(text) == Join(" ", Words(text)) + if Apart(text) && Words(text) != [] then " " else ""
    ensures Words(text) != [] ==> var r := Join(" ", Words(text)); r != "" && !Space(r[|r| - 1])
  {
    if text != "" {
      var n := |text| - 1;
      var s, c := text[..n], text[n];
      assert text == s + [c];
      SqueezedWords(s);
      SqueezedSnoc(s, c);
      WordsSnoc(s, c);
      var words := Words(s);
      assert !Apart(s) ==> words != [];
      hide Words, Word, Squeezed, Join;
      if !Space(c) {
        if Apart(s) || words == [] { JoinSnoc(" ", words, [c]); } else { JoinLonger(words, c); }
      }
    }
  }

  lemma SqueezedSnoc(s: string, c: char)
    ensures var before := Squeezed(s);
            Squeezed(s + [c]) ==
              if !Space(c) then before + [c]
              else if before == "" || before[|before| - 1] == ' ' then before
              else before + " "
  {
    assert (s + [c])[..|s|] == s;
  }

  lemma JoinLonger(words: seq<string>, c: char)
    requires words != []
    ensures Join(" ", words[..|words| - 1] + [words[|words| - 1] + [c]]) == Join(" ", words) + [c]
  {
    hide Join;
    var n := |words| - 1;
    var front, last := words[..n], words[n];
    assert words == front + [last];
    JoinSnoc(" ", front, last + [c]);
    JoinSnoc(" ", front, last);
    Regroup(Join(" ", front) + " ", last, [c]);
  }

  /** Collapsing white space leaves the words, one space apart. */
  lemma CollapsedWords(text: string)
    ensures Collapsed(text) == Join(" ", Words(text))
  {
    SqueezedWords(text);
  }

  // ---- The published text -----------------------------------------------------------------------

  /** What follows a kept heading up to the next one. */
  function Rest(text: string, kept: seq<Match>, k: nat): string
    requires Ordered(kept, |text|) && k < |kept|
  {
    text[kept[k].end..if k + 1 < |kept| then kept[k + 1].start else |text|]
  }

  lemma RawIsRest(text: string, kept: seq<Match>, k: nat)
    requires Ordered(kept, |text|) && k < |kept|
    ensures RawBody(text, kept, k) == Replaced(Rest(text, kept, k))
  {
    hide Replaced;
  }

  lemma BodyWords(text: string, kept: seq<Match>, k: nat)
    requires Ordered(kept, |text|) && k < |kept|
    ensures Body(text, kept, k) == Join(" ", Words(Truncated(Replaced(Rest(text, kept, k)))))
    ensures Visible(Body(text, kept, k)) == Visible(Truncated(Replaced(Rest(text, kept, k))))
    ensures Truncated(Replaced(Rest(text, kept, k))) <= Replaced(Rest(text, kept, k))
  {
    RawIsRest(text, kept, k);
    hide Replaced, Truncated, Collapsed, Words, Visible, RawBody;
    var part := Truncated(Replaced(Rest(text, kept, k)));
    CollapsedWords(part);
    CollapsedMeaning(part);
  }

  /** An article's body was cut to fewer than 20 characters. */
  ghost predicate Lost(text: string, kept: seq<Match>, k: nat)
    requires Ordered(kept, |text|) && k < |kept|
  {
    var whole := Replaced(Rest(text, kept, k));
    |Truncated(whole)| < |whole| && |Join(" ", Words(Truncated(whole)))| < 20
  }

  lemma DroppedIsLost(text: string, kept: seq<Match>, k: nat)
    requires Ordered(kept, |text|) && k < |kept|
    ensures Dropped(text, kept, k) <==> Lost(text, kept, k)
    ensures WasCut(text, kept, k) <==> Cut(text, kept, k)
  {
    BodyWords(text, kept, k);
    RawIsRest(text, kept, k);
    hide Replaced, Truncated, Words, Rest, Body, RawBody;
  }

  /** The section holds the heading's number and title and the words of the kept part of what follows the heading:
      its visible characters are those of the heading and then those of that part, all of it when the article was
      not cut, with replacement characters as dashes. */
  ghost predicate Holds(text: string, kept: seq<Match>, k: nat, s: Section)
    requires Ordered(kept, |text|) && k < |kept|
  {
    var rest := Rest(text, kept, k);
    var part := Truncated(Replaced(rest));
    && s.name == "Article " + kept[k].number
    && s.text == "Article " + kept[k].number + ". " + kept[k].title + ".\n\n" + Join(" ", Words(part))
    && exists shown: string, whole: string ::
         && Visible(s.text) == "Article" + Visible(kept[k].number) + "." + Visible(kept[k].title) + "." + shown
         && DashedOf(whole, Visible(rest)) && shown <= whole && shown == Visible(part)
         && (|part| == |Replaced(rest)| ==> shown == whole)
  }

  lemma ArticleMeaning(text: string, kept: seq<Match>, k: nat)
    requires Ordered(kept, |text|) && k < |kept|
    ensures Holds(text, kept, k, SectionFor(text, kept, k))
  {
    BodyWords(text, kept, k);
    hide Rest, Replaced, Truncated, Words, Visible, Body, Join, Ordered;
    var rest := Rest(text, kept, k);
    var part := Truncated(Replaced(rest));
    var s := SectionFor(text, kept, k);
    SectionFields(text, kept, k);
    HeadVisible(kept[k].number, kept[k].title, Body(text, kept, k));
    VisiblePrefix(part, Replaced(rest));
    ReplacedVisible(rest);
    var shown, whole := Visible(part), Visible(Replaced(rest));
    assert Visible(s.text) == "Article" + Visible(kept[k].number) + "." + Visible(kept[k].title) + "." + shown;
    assert |part| == |Replaced(rest)| ==> part == Replaced(rest);
    hide DashedOf;
    assert DashedOf(whole, Visible(rest)) && shown <= whole;
  }

  lemma SectionFields(text: string, kept: seq<Match>, k: nat)
    requires k < |kept|
    ensures var s := SectionFor(text, kept, k);
            && s.name == "Article " + kept[k].number
            && s.text == "Article " + kept[k].number + ". " + kept[k].title + ".\n\n" + Body(text, kept, k)
  {
    hide Body;
  }

  lemma HeadVisible(number: string, title: string, body: string)
    ensures Visible("Article " + number + ". " + title + ".\n\n" + body) ==
              "Article" + Visible(number) + "." + Visible(title) + "." + Visible(body)
  {
    FixedVisible();
    hide Visible;
    var one := "Article " + number;
    var two := one + ". " + title;
    VisibleConcat(two + ".\n\n", body);
    VisibleConcat(two, ".\n\n");
    VisibleConcat(one + ". ", title);
    VisibleConcat(one, ". ");
    VisibleConcat("Article ", number);
  }

  lemma FixedVisible()
    ensures Visible("Article ") == "Article" && Visible(". ") == "." && Visible(".\n\n") == "."
  {
    hide Visible;
    VisibleMargin("Article", " ");
    VisibleMargin(".", " ");
    VisibleMargin(".", "\n\n");
    assert "Article" + " " == "Article " && "." + " " == ". " && "." + "\n\n" == ".\n\n";
  }

  lemma VisibleMargin(w: string, gap: string)
    requires |gap| <= 2 && (forall i :: 0 <= i < |w| ==> !Space(w[i])) && (forall i :: 0 <= i < |gap| ==> Space(gap[i]))
    ensures Visible(w + gap) == w
  {
    VisibleWord(w);
    VisibleConcat(w, gap);
    assert gap != "" ==> Visible(gap[..|gap| - 1]) == "";
  }

  // ---- The whole answer -------------------------------------------------------------------------

  function CutAt(text: string, kept: seq<Match>, n: nat): (r: seq<nat>)
    requires n <= |kept|
    ensures forall k :: 0 <= k < |r| ==> r[k] < n
  {
    if n == 0 then []
    else CutAt(text, kept, n - 1) + if WasCut(text, kept, n - 1) && !Dropped(text, kept, n - 1) then [n - 1] else []
  }

  lemma {:induction false} CutAtMeaning(text: string, kept: seq<Match>, n: nat)
    requires n <= |kept|
    ensures var r, names := CutAt(text, kept, n), CutNames(text, kept, n);
            |names| == |r| && forall k :: 0 <= k < |r| ==> names[k] == "Article " + kept[r[k]].number
    ensures Increasing(CutAt(text, kept, n))
  {
    hide WasCut, Dropped;
    if n > 0 { CutAtMeaning(text, kept, n - 1); }
  }

  lemma {:induction false} CutAtExactly(text: string, kept: seq<Match>, n: nat, i: nat)
    requires i < n <= |kept|
    ensures i in CutAt(text, kept, n) <==> WasCut(text, kept, i) && !Dropped(text, kept, i)
  {
    hide WasCut, Dropped;
    if i < n - 1 {
      CutAtExactly(text, kept, n - 1, i);
    } else {
      assert i !in CutAt(text, kept, n - 1);
    }
  }

  ghost predicate Cut(text: string, kept: seq<Match>, k: nat)
    requires Ordered(kept, |text|) && k < |kept|
  {
    |Truncated(Replaced(Rest(text, kept, k)))| < |Replaced(Rest(text, kept, k))|
  }

  /** The places of the kept headings that were lost, or of those that were not, in order. */
  ghost predicate Places(text: string, kept: seq<Match>, at: seq<nat>, lost: bool)
    requires Ordered(kept, |text|)
  {
    && Increasing(at) && (forall k :: 0 <= k < |at| ==> at[k] < |kept|)
    && (forall k :: 0 <= k < |kept| ==> (k in at <==> Lost(text, kept, k) == lost))
  }

  /** The places of the kept headings that were cut and not lost, in order. */
  ghost predicate CutPlaces(text: string, kept: seq<Match>, at: seq<nat>)
    requires Ordered(kept, |text|)
  {
    && Increasing(at) && (forall k :: 0 <= k < |at| ==> at[k] < |kept|)
    && (forall k :: 0 <= k < |kept| ==> (k in at <==> Cut(text, kept, k) && !Lost(text, kept, k)))
  }

  lemma SurvivorsArePlaces(text: string, kept: seq<Match>, lost: bool)
    requires Ordered(kept, |text|)
    ensures Places(text, kept, SurvivorsAt(text, kept, lost, |kept|), lost)
  {
    SurvivorsOrdered(text, kept, lost, |kept|);
    hide SurvivorsAt, Lost, Dropped, Increasing, Ordered;
    forall k | 0 <= k < |kept| ensures k in SurvivorsAt(text, kept, lost, |kept|) <==> Lost(text, kept, k) == lost {
      SurvivorsExactly(text, kept, lost, |kept|, k);
      DroppedIsLost(text, kept, k);
    }
  }

  lemma CutAtArePlaces(text: string, kept: seq<Match>)
    requires Ordered(kept, |text|)
    ensures CutPlaces(text, kept, CutAt(text, kept, |kept|))
  {
    CutAtMeaning(text, kept, |kept|);
    hide CutAt, Lost, WasCut, Cut, Dropped, Increasing, Ordered, CutNames;
    forall k | 0 <= k < |kept| ensures k in CutAt(text, kept, |kept|) <==> Cut(text, kept, k) && !Lost(text, kept, k) {
      CutAtExactly(text, kept, |kept|, k);
      DroppedIsLost(text, kept, k);
    }
  }

  /** The answer of parsing: an error when no heading is kept, another when every kept article was lost, and
      otherwise three lists in text order, of the other articles with their text, of the lost ones' names and
      of the cut ones' names. */
  lemma ParsedExactly(text: string, kept: seq<Match>) returns (inside: seq<nat>, lost: seq<nat>, cut: seq<nat>)
    requires Ordered(kept, |text|)
    ensures Places(text, kept, inside, false) && Places(text, kept, lost, true) && CutPlaces(text, kept, cut)
    ensures var r := Outcome(text, kept);
            && (r.NoArticles? <==> kept == [])
            && (r.AllGarbled? <==> kept != [] && forall k :: 0 <= k < |kept| ==> Lost(text, kept, k))
            && (r.Parsed? ==>
                  && |r.sections| == |inside| && |r.dropped| == |lost| && |r.truncated| == |cut|
                  && (forall k :: 0 <= k < |inside| ==> Holds(text, kept, inside[k], r.sections[k]))
                  && (forall k :: 0 <= k < |lost| ==> r.dropped[k] == "Article " + kept[lost[k]].number)
                  && (forall k :: 0 <= k < |cut| ==> r.truncated[k] == "Article " + kept[cut[k]].number))
  {
    inside, lost, cut := SurvivorsAt(text, kept, false, |kept|), SurvivorsAt(text, kept, true, |kept|), CutAt(text, kept, |kept|);
    SurvivorsArePlaces(text, kept, false);
    SurvivorsArePlaces(text, kept, true);
    CutAtArePlaces(text, kept);
    SectionsAt(text, kept, |kept|);
    DroppedAt(text, kept, |kept|);
    CutAtMeaning(text, kept, |kept|);
    hide SurvivorsAt, CutAt, Holds, Lost, Rest, Replaced, Truncated, WasCut, Dropped, SectionFor, Sections, DroppedNames,
         CutNames, Increasing, Cut, Ordered;
    forall k | 0 <= k < |inside| ensures Holds(text, kept, inside[k], Sections(text, kept, |kept|)[k]) {
      ArticleMeaning(text, kept, inside[k]);
    }
    if inside != [] { assert inside[0] in inside; }
  }

  /** Parsing finds no article exactly when no match has its number in the range and a title without a
      replacement character. */
  lemma NoArticlesExactly(text: string, matches: seq<Match>, low: int, high: int)
    requires Ordered(matches, |text|)
    ensures Outcome(text, Kept(matches, low, high, |matches|)).NoArticles? <==>
              forall i :: 0 <= i < |matches| ==> !(low <= matches[i].value <= high) || '\U{FFFD}' in matches[i].title
  {
    KeptMeaning(matches, low, high, |text|);
    var kept := Kept(matches, low, high, |matches|);
    hide Kept, Sections, DroppedNames, CutNames;
    if kept != [] { assert kept[0] in matches; }
  }
}
