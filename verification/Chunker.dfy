/** The section-aware chunker (tradegraph/src/rag/chunking/chunker.py:62-161). The tokenizer is given as a
    pair of arbitrary functions. */
module Chunker {
  import opened Helpers
  datatype Codec = Codec(encode: string -> seq<int>, decode: seq<int> -> string)

  datatype Section = Section(name: string, text: string)
  datatype Table = Table(section: Option<string>, title: Option<string>, headers: seq<string>, rows: seq<seq<string>>)
  datatype Parsed = Parsed(sections: seq<Section>, tables: seq<Table>)

  datatype Chunk =
    | TextChunk(section: string, index: nat, text: string, tokenCount: nat)
    | TableChunk(table: Table, index: nat, text: string, tokenCount: nat)

  datatype Result<T> = Ok(value: T) | ChunkingError

  predicate Blank(text: string) { forall i :: 0 <= i < |text| ==> Space(text[i]) }

  /** `tokens[start:end]`, where a negative end counts from the back. */
  function Slice(tokens: seq<int>, start: nat, end: int): seq<int> {
    var e := if end >= 0 then end else if end + |tokens| >= 0 then end + |tokens| else 0;
    if start >= e || start >= |tokens| then [] else tokens[start..if e <= |tokens| then e else |tokens|]
  }

  /** The windows from position `start` on. */
  function Windows(tokens: seq<int>, size: int, overlap: int, start: nat): seq<seq<int>>
    requires overlap < size
    decreases |tokens| - start
  {
    if start >= |tokens| then []
    else
      var end := Min(start + size, |tokens|);
      [Slice(tokens, start, end)] + if end == |tokens| then [] else Windows(tokens, size, overlap, start + size - overlap)
  }

  function Numbered(codec: Codec, name: string, windows: seq<seq<int>>): seq<Chunk> {
    seq(|windows|, k requires 0 <= k < |windows| => TextChunk(name, k, codec.decode(windows[k]), |windows[k]|))
  }

  function SectionChunks(codec: Codec, section: Section, size: int, overlap: int): seq<Chunk>
    requires overlap < size
  {
    var tokens := codec.encode(section.text);
    if Blank(section.text) then []
    else if |tokens| <= size then [TextChunk(section.name, 0, section.text, |tokens|)]
    else Numbered(codec, section.name, Windows(tokens, size, overlap, 0))
  }

  method ChunkSection(codec: Codec, section: Section, size: int, overlap: int) returns (chunks: seq<Chunk>)
    requires overlap < size
    ensures chunks == SectionChunks(codec, section, size, overlap)
  {
    hide Slice, Windows, Numbered, Blank;
    if Blank(section.text) { return []; }
    var tokens := codec.encode(section.text);
    if |tokens| <= size { return [TextChunk(section.name, 0, section.text, |tokens|)]; }
    chunks := [];
    NumberedNone(codec, section.name);
    var stride, index, start := size - overlap, 0, 0;
    ghost var windows: seq<seq<int>> := [];
    while start < |tokens|
      invariant start >= 0 && index == |chunks| && chunks == Numbered(codec, section.name, windows)
      invariant windows + Windows(tokens, size, overlap, start) == Windows(tokens, size, overlap, 0)
      decreases |tokens| - start
    {
      NextStep(tokens, size, overlap, start, windows);
      var end := Min(start + size, |tokens|);
      var window := Slice(tokens, start, end);
      chunks := chunks + [TextChunk(section.name, index, codec.decode(window), |window|)];
      NumberedSnoc(codec, section.name, windows, window);
      windows := windows + [window];
      index := index + 1;
      assert windows + [] == windows;
      if end == |tokens| { return; }
      start := start + stride;
    }
    NoWindows(tokens, size, overlap, start);
    assert windows + [] == windows;
  }

  /** The window the loop cuts at `start` is the next one. */
  lemma NextStep(tokens: seq<int>, size: int, overlap: int, start: nat, windows: seq<seq<int>>)
    requires overlap < size && start < |tokens|
    ensures var end := Min(start + size, |tokens|);
            windows + Windows(tokens, size, overlap, start) == (windows + [Slice(tokens, start, end)])
              + if end == |tokens| then [] else Windows(tokens, size, overlap, start + size - overlap)
  {
  }

  lemma NumberedNone(codec: Codec, name: string)
    ensures Numbered(codec, name, []) == []
  {
  }

  lemma NumberedSnoc(codec: Codec, name: string, windows: seq<seq<int>>, window: seq<int>)
    ensures Numbered(codec, name, windows + [window]) ==
            Numbered(codec, name, windows) + [TextChunk(name, |windows|, codec.decode(window), |window|)]
    ensures |Numbered(codec, name, windows)| == |windows|
  {
  }

  function RowLines(rows: seq<seq<string>>): seq<string> { seq(|rows|, i requires 0 <= i < |rows| => Join(" | ", rows[i])) }

  function LinearizeTable(t: Table): string {
    Join("\n",
      (if t.title.Some? && t.title.value != "" then [t.title.value] else [])
      + (if t.headers != [] then [Join(" | ", t.headers)] else [])
      + RowLines(t.rows))
  }

  function TableToChunk(codec: Codec, t: Table, index: nat): Chunk {
    TableChunk(t, index, LinearizeTable(t), |codec.encode(LinearizeTable(t))|)
  }

  function AllSections(codec: Codec, sections: seq<Section>, size: int, overlap: int): seq<Chunk>
    requires overlap < size
  {
    if sections == [] then []
    else
      var n := |sections| - 1;
      AllSections(codec, sections[..n], size, overlap) + SectionChunks(codec, sections[n], size, overlap)
  }

  function AllTables(codec: Codec, tables: seq<Table>): seq<Chunk> {
    seq(|tables|, i requires 0 <= i < |tables| => TableToChunk(codec, tables[i], i))
  }

  method ChunkDocument(codec: Codec, parsed: Parsed, size: int, overlap: int) returns (r: Result<seq<Chunk>>)
    ensures r == if overlap >= size then ChunkingError
                 else Ok(AllSections(codec, parsed.sections, size, overlap) + AllTables(codec, parsed.tables))
  {
    hide SectionChunks, TableToChunk;
    if overlap >= size { return ChunkingError; }
    var chunks := [];
    for i := 0 to |parsed.sections|
      invariant chunks == AllSections(codec, parsed.sections[..i], size, overlap)
    {
      assert parsed.sections[..i + 1][..i] == parsed.sections[..i];
      var more := ChunkSection(codec, parsed.sections[i], size, overlap);
      chunks := chunks + more;
    }
    assert parsed.sections[..|parsed.sections|] == parsed.sections;
    ghost var text := chunks;
    for i := 0 to |parsed.tables|
      invariant chunks == text + AllTables(codec, parsed.tables)[..i]
    {
      chunks := chunks + [TableToChunk(codec, parsed.tables[i], i)];
    }
    assert AllTables(codec, parsed.tables)[..|parsed.tables|] == AllTables(codec, parsed.tables);
    return Ok(chunks);
  }

  /** A table's text has one line for its title, if there is one, one for its headers, if there are any, and one
      for each row, in that order; the chunk keeps the table itself. */
  lemma TableMeaning(codec: Codec, tables: seq<Table>, i: nat) returns (lines: seq<string>)
    requires i < |tables|
    ensures var t, chunk := tables[i], AllTables(codec, tables)[i];
            && chunk == TableChunk(t, i, Join("\n", lines), |codec.encode(Join("\n", lines))|)
            && var titled, headed := t.title.Some? && |t.title.value| > 0, |t.headers| > 0;
            && |lines| == (if titled then 1 else 0) + (if headed then 1 else 0) + |t.rows|
            && (titled ==> lines[0] == t.title.value)
            && (headed ==> lines[if titled then 1 else 0] == Join(" | ", t.headers))
            && forall r :: 0 <= r < |t.rows| ==> lines[|lines| - |t.rows| + r] == Join(" | ", t.rows[r])
    ensures |AllTables(codec, tables)| == |tables|
  {
    var t := tables[i];
    lines := (if t.title.Some? && t.title.value != "" then [t.title.value] else [])
             + (if t.headers != [] then [Join(" | ", t.headers)] else []) + RowLines(t.rows);
  }

  /** Chunks of sections stand in the order of their sections. */
  lemma {:induction false} SectionsInOrder(codec: Codec, a: seq<Section>, b: seq<Section>, size: int, overlap: int)
    requires overlap < size
    ensures AllSections(codec, a + b, size, overlap) == AllSections(codec, a, size, overlap) + AllSections(codec, b, size, overlap)
    ensures |b| == 1 ==> AllSections(codec, b, size, overlap) == SectionChunks(codec, b[0], size, overlap)
  {
    hide SectionChunks;
    if b == [] {
      assert a + b == a;
    } else {
      var n := |b| - 1;
      SectionsInOrder(codec, a, b[..n], size, overlap);
      assert (a + b)[..|a + b| - 1] == a + b[..n];
    }
  }

  /** A slice holds the tokens from `start` on that stand before its end. */
  lemma SliceMeaning(tokens: seq<int>, start: nat, end: int)
    ensures var r := Slice(tokens, start, end);
            && var stop := Min(|tokens|, if end < 0 then |tokens| + end else end);
            && |r| == (if start < stop then stop - start else 0)
            && forall i :: 0 <= i < |r| ==> r[i] == tokens[start + i]
  {
  }

  // ---- The windows ------------------------------------------------------------------------------

  /** `c` is the least whole number not below `a / b`. */
  predicate IsCeil(c: int, a: int, b: int) { (c - 1) * b < a <= c * b }

  lemma CeilStep(c: int, a: int, b: int)
    requires IsCeil(c, a, b)
    ensures IsCeil(c + 1, a + b, b)
  {
    assert (c + 1) * b == c * b + b;
    assert c * b == (c - 1) * b + b;
  }

  /** Window `k` of those that begin at `start`. */
  ghost predicate WindowAt(window: seq<int>, tokens: seq<int>, size: int, stride: int, start: int, k: int) {
    var from := start + k * stride;
    0 <= from < |tokens| && size > 0 && window == tokens[from..Min(from + size, |tokens|)]
  }

  predicate Reaches(k: int, n: int, size: int, stride: int, start: int) { start + k * stride + size >= n }

  lemma LaterWindow(window: seq<int>, tokens: seq<int>, size: int, stride: int, start: int, k: int)
    ensures WindowAt(window, tokens, size, stride, start + stride, k) <==> WindowAt(window, tokens, size, stride, start, k + 1)
    ensures Reaches(k, |tokens|, size, stride, start + stride) <==> Reaches(k + 1, |tokens|, size, stride, start)
  {
    assert start + stride + k * stride == start + (k + 1) * stride;
  }

  lemma WindowsStep(tokens: seq<int>, size: int, overlap: int, start: nat)
    requires overlap < size && 0 < size && start < |tokens|
    ensures Windows(tokens, size, overlap, start) ==
            [tokens[start..Min(start + size, |tokens|)]]
            + if start + size >= |tokens| then [] else Windows(tokens, size, overlap, start + size - overlap)
  {
  }

  /** How many windows there are, and where each begins and ends. */
  lemma {:induction false} WindowsShape(tokens: seq<int>, size: int, overlap: int, start: nat)
    requires 0 <= overlap < size && start + overlap < |tokens|
    ensures var n, stride, ws := |tokens|, size - overlap, Windows(tokens, size, overlap, start);
            && IsCeil(|ws|, n - overlap - start, stride)
            && (forall k :: 0 <= k < |ws| ==> WindowAt(ws[k], tokens, size, stride, start, k))
            && (forall k :: 0 <= k < |ws| ==> (Reaches(k, n, size, stride, start) <==> k == |ws| - 1))
    decreases |tokens| - start
  {
    hide Windows, WindowAt, Reaches, IsCeil, Min;
    var n, stride, ws := |tokens|, size - overlap, Windows(tokens, size, overlap, start);
    WindowsStep(tokens, size, overlap, start);
    FirstWindow(tokens, size, stride, start);
    if start + size < n {
      var rest := Windows(tokens, size, overlap, start + stride);
      WindowsShape(tokens, size, overlap, start + stride);
      CeilStep(|rest|, n - overlap - start - stride, stride);
      NotEmpty(tokens, size, overlap, start + stride);
      forall k | 0 <= k < |ws|
        ensures WindowAt(ws[k], tokens, size, stride, start, k)
        ensures Reaches(k, n, size, stride, start) <==> k == |ws| - 1
      {
        if k > 0 {
          assert ws[k] == rest[k - 1];
          LaterWindow(ws[k], tokens, size, stride, start, k - 1);
        }
      }
    } else {
      LastCount(n - overlap - start, stride);
    }
  }

  lemma NotEmpty(tokens: seq<int>, size: int, overlap: int, start: nat)
    requires overlap < size && start < |tokens|
    ensures Windows(tokens, size, overlap, start) != []
  {
  }

  lemma FirstWindow(tokens: seq<int>, size: int, stride: int, start: nat)
    requires 0 < size && start < |tokens|
    ensures WindowAt(tokens[start..Min(start + size, |tokens|)], tokens, size, stride, start, 0)
    ensures Reaches(0, |tokens|, size, stride, start) <==> start + size >= |tokens|
  {
  }

  lemma LastCount(a: int, b: int)
    requires 0 < a <= b
    ensures IsCeil(1, a, b)
  {
  }

  /** A full chunk and the next one: it begins with the last `overlap` tokens of the one before and has more. */
  predicate Follows(a: seq<int>, b: seq<int>, size: nat, overlap: nat) {
    overlap <= size && |a| == size && overlap < |b| <= size && a[size - overlap..] == b[..overlap]
  }

  /** For a text longer than one chunk: the number of chunks is the least whole number not below
      (n - overlap) / (size - overlap); all but the last hold exactly `size` tokens and the last at most
      that; neighbours share exactly `overlap` tokens; and the last adds at least one token. */
  lemma WindowsMeaning(tokens: seq<int>, size: int, overlap: int)
    requires 0 <= overlap < size < |tokens|
    ensures var ws := Windows(tokens, size, overlap, 0);
            && IsCeil(|ws|, |tokens| - overlap, size - overlap) && |ws| >= 2
            && (forall k :: 0 < k < |ws| ==> Follows(ws[k - 1], ws[k], size, overlap))
  {
    hide Windows, WindowAt, Reaches, Follows;
    var ws := Windows(tokens, size, overlap, 0);
    WindowsShape(tokens, size, overlap, 0);
    forall k | 0 < k < |ws| ensures Follows(ws[k - 1], ws[k], size, overlap) {
      NextWindow(ws[k - 1], ws[k], tokens, size, overlap, k - 1);
    }
  }

  lemma NextWindow(a: seq<int>, b: seq<int>, tokens: seq<int>, size: int, overlap: int, k: nat)
    requires 0 <= overlap < size && !Reaches(k, |tokens|, size, size - overlap, 0)
    requires WindowAt(a, tokens, size, size - overlap, 0, k) && WindowAt(b, tokens, size, size - overlap, 0, k + 1)
    ensures Follows(a, b, size, overlap)
  {
    var stride := size - overlap;
    var from, next := k * stride, (k + 1) * stride;
    assert next == from + stride;
    assert a == tokens[from..from + size] && b == tokens[next..Min(next + size, |tokens|)];
    assert a[stride..] == tokens[next..from + size] == b[..overlap];
  }

  /** Later chunks without what they share with the one before. */
  function Fresh(windows: seq<seq<int>>, overlap: nat): seq<int> {
    if windows == [] then []
    else (if |windows[0]| >= overlap then windows[0][overlap..] else []) + Fresh(windows[1..], overlap)
  }

  lemma {:induction false} FreshTokens(tokens: seq<int>, size: int, overlap: int, start: nat)
    requires 0 <= overlap < size && start + overlap < |tokens|
    ensures Fresh(Windows(tokens, size, overlap, start), overlap) == tokens[start + overlap..]
    decreases |tokens| - start
  {
    hide Windows, Fresh;
    var n, stride := |tokens|, size - overlap;
    WindowsStep(tokens, size, overlap, start);
    var window := tokens[start..Min(start + size, n)];
    assert window[overlap..] == tokens[start + overlap..Min(start + size, n)];
    if start + size < n {
      FreshTokens(tokens, size, overlap, start + stride);
      FreshStep(window, Windows(tokens, size, overlap, start + stride), overlap);
      assert tokens[start + overlap..start + size] + tokens[start + size..] == tokens[start + overlap..];
    } else {
      FreshStep(window, [], overlap);
    }
  }

  lemma FreshStep(window: seq<int>, rest: seq<seq<int>>, overlap: nat)
    requires overlap <= |window|
    ensures Fresh([window] + rest, overlap) == window[overlap..] + Fresh(rest, overlap)
    ensures Fresh([], overlap) == []
  {
    assert ([window] + rest)[1..] == rest;
  }

  /** Reconstruction: the first chunk followed by what each later one adds is the text's token sequence. */
  lemma Reconstruction(tokens: seq<int>, size: int, overlap: int)
    requires 0 <= overlap < size < |tokens|
    ensures var ws := Windows(tokens, size, overlap, 0);
            ws != [] && ws[0] + Fresh(ws[1..], overlap) == tokens
  {
    hide Windows, Fresh;
    var ws, rest := Windows(tokens, size, overlap, 0), Windows(tokens, size, overlap, size - overlap);
    FreshTokens(tokens, size, overlap, size - overlap);
    WindowsStep(tokens, size, overlap, 0);
    assert ws == [tokens[..size]] + rest && ws[1..] == rest;
    assert tokens[..size] + tokens[size..] == tokens;
  }

  // ---- What is covered, for any overlap ---------------------------------------------------------

  lemma NoWindows(tokens: seq<int>, size: int, overlap: int, start: nat)
    requires overlap < size && start >= |tokens|
    ensures Windows(tokens, size, overlap, start) == []
  {
  }

  /** Each window is the stretch of tokens that begins `k` strides after `start`. */
  lemma {:induction false} WindowsStart(tokens: seq<int>, size: int, overlap: int, start: nat, k: nat)
    requires overlap < size && 0 < size && k < |Windows(tokens, size, overlap, start)|
    ensures WindowAt(Windows(tokens, size, overlap, start)[k], tokens, size, size - overlap, start, k)
    decreases k
  {
    hide Windows, WindowAt;
    if start >= |tokens| {
      NoWindows(tokens, size, overlap, start);
    } else {
      var stride, ws := size - overlap, Windows(tokens, size, overlap, start);
      WindowsStep(tokens, size, overlap, start);
      FirstWindow(tokens, size, stride, start);
      if k > 0 {
        WindowsStart(tokens, size, overlap, start + stride, k - 1);
        assert ws[k] == Windows(tokens, size, overlap, start + stride)[k - 1];
        LaterWindow(ws[k], tokens, size, stride, start, k - 1);
      }
    }
  }

  /** Window `k` of those that begin at `start` reaches over position `p`. */
  ghost predicate Reached(windows: seq<seq<int>>, stride: int, start: int, p: int, k: nat) {
    k < |windows| && start + k * stride <= p < start + k * stride + |windows[k]|
  }

  ghost predicate Covered(windows: seq<seq<int>>, stride: int, start: int, p: int) {
    exists k: nat :: Reached(windows, stride, start, p, k)
  }

  lemma ReachedLater(window: seq<int>, rest: seq<seq<int>>, stride: int, start: int, p: int, k: nat)
    ensures Reached([window] + rest, stride, start, p, k + 1) <==> Reached(rest, stride, start + stride, p, k)
  {
    assert start + stride + k * stride == start + (k + 1) * stride;
  }

  lemma CoveredStep(window: seq<int>, rest: seq<seq<int>>, stride: int, start: int, p: int)
    ensures Covered([window] + rest, stride, start, p) <==>
              start <= p < start + |window| || Covered(rest, stride, start + stride, p)
  {
    hide Reached;
    var ws := [window] + rest;
    ReachedFirst(window, rest, stride, start, p);
    if k: nat :| Reached(ws, stride, start, p, k) && k > 0 { ReachedLater(window, rest, stride, start, p, k - 1); }
    var next := start + stride;
    if k: nat :| Reached(rest, stride, next, p, k) { ReachedLater(window, rest, stride, start, p, k); }
  }

  lemma ReachedFirst(window: seq<int>, rest: seq<seq<int>>, stride: int, start: int, p: int)
    ensures Reached([window] + rest, stride, start, p, 0) <==> start <= p < start + |window|
  {
  }

  lemma NotBefore(windows: seq<seq<int>>, stride: int, start: int, p: int)
    requires stride > 0 && p < start
    ensures !Covered(windows, stride, start, p)
  {
    forall k: nat ensures !Reached(windows, stride, start, p, k) {
      assert k * stride >= 0;
    }
  }

  lemma AtLeastOnce(d: int, b: int)
    requires d >= 1 && b > 0
    ensures d * b >= b
  {
    assert d * b == (d - 1) * b + b && (d - 1) * b >= 0;
  }

  lemma RemainderUnique(a: int, q: int, r: int, b: int)
    requires 0 <= r < b && a == q * b + r
    ensures a % b == r
  {
    var d := a / b - q;
    assert a == (a / b) * b + a % b;
    assert d * b == (a / b) * b - q * b && (-d) * b == -(d * b);
    if d >= 1 { AtLeastOnce(d, b); }
    if d <= -1 { AtLeastOnce(-d, b); }
  }

  lemma StepBack(a: nat, stride: nat)
    requires 0 < stride <= a
    ensures a % stride == (a - stride) % stride < stride
  {
    var b := a - stride;
    assert b == (b / stride) * stride + b % stride;
    assert (b / stride + 1) * stride == (b / stride) * stride + stride;
    RemainderUnique(a, b / stride + 1, b % stride, stride);
  }

  lemma {:induction false} CoveredFrom(tokens: seq<int>, size: int, overlap: int, start: nat, p: nat)
    requires overlap < size && 0 < size && start <= p < |tokens|
    ensures Covered(Windows(tokens, size, overlap, start), size - overlap, start, p) <==> (p - start) % (size - overlap) < size
    decreases |tokens| - start
  {
    hide Windows, Covered;
    var n, stride := |tokens|, size - overlap;
    var window := tokens[start..Min(start + size, n)];
    var rest := if start + size >= n then [] else Windows(tokens, size, overlap, start + stride);
    WindowsStep(tokens, size, overlap, start);
    CoveredStep(window, rest, stride, start, p);
    NeverCovered(stride, start + stride, p);
    if p < start + stride {
      NotBefore(rest, stride, start + stride, p);
      Small(p - start, stride);
    } else {
      StepBack(p - start, stride);
      if start + size < n { CoveredFrom(tokens, size, overlap, start + stride, p); }
    }
  }

  lemma Below(a: nat, b: nat)
    requires b > 0
    ensures a % b < b
  {
  }

  lemma Small(a: nat, b: nat)
    requires a < b
    ensures a % b == a
  {
  }

  lemma NeverCovered(stride: int, start: int, p: int)
    ensures !Covered([], stride, start, p)
  {
  }

  /** Exactly which token positions of a text the windows cover, for any overlap: those at most `size` after
      the last multiple of the stride. */
  lemma CoveredExactly(tokens: seq<int>, size: int, overlap: int, p: nat)
    requires overlap < size && 0 < size && p < |tokens|
    ensures Covered(Windows(tokens, size, overlap, 0), size - overlap, 0, p) <==> p % (size - overlap) < size
  {
    CoveredFrom(tokens, size, overlap, 0, p);
  }

  /** Nothing in the chunker refuses a negative overlap. No position of a long text is lost exactly when the
      overlap is not negative: otherwise the token right after the first chunk is in none. */
  lemma NothingLostExactly(tokens: seq<int>, size: int, overlap: int)
    requires overlap < size && 0 < size < |tokens|
    ensures var ws, stride := Windows(tokens, size, overlap, 0), size - overlap;
            && (forall k: nat :: k < |ws| ==> WindowAt(ws[k], tokens, size, stride, 0, k))
            && ((forall p: nat :: p < |tokens| ==> Covered(ws, stride, 0, p)) <==> overlap >= 0)
            && (overlap < 0 ==> !Covered(ws, stride, 0, size))
  {
    hide Windows, WindowAt, Covered;
    var ws, stride := Windows(tokens, size, overlap, 0), size - overlap;
    forall k: nat | k < |ws| ensures WindowAt(ws[k], tokens, size, stride, 0, k) {
      WindowsStart(tokens, size, overlap, 0, k);
    }
    forall p: nat | p < |tokens| ensures Covered(ws, stride, 0, p) <==> p % stride < size {
      CoveredExactly(tokens, size, overlap, p);
    }
    forall p: nat | overlap >= 0 && p < |tokens| ensures p % stride < size { Below(p, stride); }
    if overlap < 0 {
      Small(size, stride);
      assert !Covered(ws, stride, 0, size);
    }
  }

  // ---- Chunks of a document ---------------------------------------------------------------------

  /** Within a section, chunks are numbered from 0 and none holds more than `size` tokens; a section that
      fits is one chunk with the section's own text, and only a blank section has none. */
  lemma SectionChunksMeaning(codec: Codec, section: Section, size: int, overlap: int)
    requires 0 <= overlap < size
    ensures var chunks, n := SectionChunks(codec, section, size, overlap), |codec.encode(section.text)|;
            && (forall k :: 0 <= k < |chunks| ==>
                  chunks[k].TextChunk? && chunks[k].section == section.name && chunks[k].index == k && chunks[k].tokenCount <= size)
            && (chunks == [] <==> forall i :: 0 <= i < |section.text| ==> Space(section.text[i]))
            && (chunks != [] && n <= size ==> chunks == [TextChunk(section.name, 0, section.text, n)])
            && (chunks != [] && n > size ==>
                  var windows := Windows(codec.encode(section.text), size, overlap, 0);
                  && |chunks| == |windows| && IsCeil(|chunks|, n - overlap, size - overlap)
                  && forall k :: 0 <= k < |chunks| ==>
                       chunks[k].text == codec.decode(windows[k]) && chunks[k].tokenCount == |windows[k]|)
  {
    var tokens := codec.encode(section.text);
    if |tokens| > size {
      WindowsMeaning(tokens, size, overlap);
      var ws := Windows(tokens, size, overlap, 0);
      forall k | 0 <= k < |ws| ensures |ws[k]| <= size {
        if k > 0 { assert Follows(ws[k - 1], ws[k], size, overlap); } else { assert Follows(ws[0], ws[1], size, overlap); }
      }
    }
  }
}
