/**
 * The page selection of the PDF split endpoint: a comma-separated list of
 * 1-based page numbers and inclusive "a-b" ranges, checked against the page
 * count of the uploaded document, turned into the ascending, duplicate-free
 * list of pages to copy. Any bad part fails the whole request.
 */
module PageRanges {
  import opened JsText

  /** One part of the list as the parser reads it; None stands for NaN. */
  datatype Token = Single(page: Option<int>) | Span(first: Option<int>, last: Option<int>)

  /** A part of the list: its trimmed text (what error messages quote) and what it reads as. */
  datatype Part = Part(text: string, token: Token)

  /**
   * A part is trimmed; if it holds a '-', the texts before the first and
   * between the first and second hyphen are trimmed and read with parseInt
   * (any further hyphen is ignored); otherwise the whole part is read.
   */
  function ReadPart(raw: string): Part
  {
    var t := Trim(raw);
    if '-' in t then Part(t, ReadSpan(t)) else Part(t, Single(ParseInt(t, 10)))
  }

  /** The two ends of a range part, each trimmed and read with parseInt. */
  function ReadSpan(t: string): Token
    requires '-' in t
  {
    SplitAtSeparator(t, '-');
    var halves := Split(t, '-');
    Span(ParseInt(Trim(halves[0]), 10), ParseInt(Trim(halves[1]), 10))
  }

  /** The comma-separated parts of the field, read one by one. */
  function ReadParts(pageRanges: string): (parts: seq<Part>)
    ensures |parts| == |Split(pageRanges, ',')|
  {
    var raw := Split(pageRanges, ',');
    seq(|raw|, i requires 0 <= i < |raw| => ReadPart(raw[i]))
  }

  predicate TokenValid(tok: Token, totalPages: nat)
  {
    match tok
    case Single(p) => p.Some? && 1 <= p.value <= totalPages
    case Span(a, b) => a.Some? && b.Some? && 1 <= a.value && b.value <= totalPages && a.value <= b.value
  }

  /** The pages a valid token pushes, in push order. */
  function TokenPages(tok: Token, totalPages: nat): (pages: seq<int>)
    requires TokenValid(tok, totalPages)
    ensures forall i :: 0 <= i < |pages| ==> 1 <= pages[i] <= totalPages
  {
    match tok
    case Single(p) => [p.value]
    case Span(a, b) => Interval(a.value, b.value)
  }

  /** first, first + 1, ..., last. */
  function Interval(first: int, last: int): (r: seq<int>)
    requires first <= last
    ensures |r| == last - first + 1
    ensures forall i :: 0 <= i < |r| ==> r[i] == first + i
  {
    seq(last - first + 1, i => first + i)
  }

  /** A range holds every page from its start to its end and no other, each once, ascending. */
  lemma IntervalPages(first: int, last: int)
    requires first <= last
    ensures forall p :: p in Interval(first, last) <==> first <= p <= last
    ensures StrictlyIncreasing(Interval(first, last))
  {
    var r := Interval(first, last);
    forall p | first <= p <= last
      ensures p in r
    {
      assert r[p - first] == p;
    }
  }

  /** Page `p` lies in what the token names: its single page or its inclusive range. */
  predicate Names(tok: Token, p: int)
  {
    match tok
    case Single(q) => q == Some(p)
    case Span(a, b) => a.Some? && b.Some? && a.value <= p <= b.value
  }

  /** The message of the error thrown for a bad part, naming the trimmed part. */
  function ErrorMessage(part: Part): string
  {
    match part.token
    case Span(_, _) => "Invalid page range: " + part.text
    case Single(_) => "Invalid page number: " + part.text
  }

  /** The pages pushed by the parts in order, or the error of the first bad part. */
  function CollectPages(parts: seq<Part>, totalPages: nat): Result<seq<int>>
  {
    if parts == [] then Ok([])
    else
      var tok := parts[0].token;
      if !TokenValid(tok, totalPages) then Err(ErrorMessage(parts[0]))
      else
        match CollectPages(parts[1..], totalPages)
        case Err(m) => Err(m)
        case Ok(rest) => Ok(TokenPages(tok, totalPages) + rest)
  }

  function Elems(s: seq<int>): set<int>
  {
    set x | x in s
  }

  predicate StrictlyIncreasing(s: seq<int>)
  {
    forall i, j :: 0 <= i < j < |s| ==> s[i] < s[j]
  }

  lemma HeadBelowTail(s: seq<int>)
    requires StrictlyIncreasing(s) && s != []
    ensures forall y :: y in Elems(s[1..]) ==> s[0] < y
  {
    forall y | y in Elems(s[1..]) ensures s[0] < y {
      var m :| 0 <= m < |s| - 1 && s[1..][m] == y;
      assert s[m + 1] == y;
    }
  }

  /** Insert `x` into a strictly increasing list unless it is already there. */
  function InsertSorted(x: int, s: seq<int>): (r: seq<int>)
    requires StrictlyIncreasing(s)
    ensures StrictlyIncreasing(r)
    ensures Elems(r) == Elems(s) + {x}
  {
    if s == [] then [x]
    else if x < s[0] then [x] + s
    else if x == s[0] then s
    else
      var tail := InsertSorted(x, s[1..]);
      ConsSorted(s, x, tail);
      [s[0]] + tail
  }

  /** Putting back the head of a sorted list in front of a sorted list of larger values. */
  lemma ConsSorted(s: seq<int>, x: int, tail: seq<int>)
    requires StrictlyIncreasing(s) && s != [] && s[0] < x
    requires StrictlyIncreasing(tail) && Elems(tail) == Elems(s[1..]) + {x}
    ensures StrictlyIncreasing([s[0]] + tail)
    ensures Elems([s[0]] + tail) == Elems(s) + {x}
  {
    var r := [s[0]] + tail;
    assert Elems(s) == {s[0]} + Elems(s[1..]) by {
      assert s == [s[0]] + s[1..];
    }
    HeadBelowTail(s);
    forall j | 0 <= j < |tail| ensures s[0] < tail[j] {
      assert tail[j] in Elems(tail);
    }
    assert Elems(r) == {s[0]} + Elems(tail);
  }

  /** `[...new Set(xs)].sort((a, b) => a - b)`: the distinct values of `xs`, ascending. */
  function SortedUnique(xs: seq<int>): (r: seq<int>)
    ensures StrictlyIncreasing(r)
    ensures Elems(r) == Elems(xs)
  {
    if xs == [] then []
    else
      var init := xs[..|xs| - 1];
      assert xs == init + [xs[|xs| - 1]];
      InsertSorted(xs[|xs| - 1], SortedUnique(init))
  }

  /**
   * The page numbers to extract for the `pageRanges` field (the empty string
   * when the field is missing) of a document with `totalPages` pages.
   */
  function ParsePageRanges(pageRanges: string, totalPages: nat): Result<seq<int>>
  {
    if pageRanges == "" then Err("Page ranges must be specified")
    else
      match CollectPages(ReadParts(pageRanges), totalPages)
      case Err(m) => Err(m)
      case Ok(pages) => Ok(SortedUnique(pages))
  }

  // ---------------------------------------------------------------------
  // What the parser promises

  /** A valid part pushes exactly the pages it names. */
  lemma TokenPagesNames(tok: Token, totalPages: nat)
    requires TokenValid(tok, totalPages)
    ensures forall p :: p in TokenPages(tok, totalPages) <==> Names(tok, p)
  {
    if tok.Span? {
      var pages := TokenPages(tok, totalPages);
      forall p | Names(tok, p) ensures p in pages {
        assert pages[p - tok.first.value] == p;
      }
    }
  }

  lemma {:induction false} CollectOk(parts: seq<Part>, totalPages: nat)
    requires CollectPages(parts, totalPages).Ok?
    ensures forall k :: 0 <= k < |parts| ==> TokenValid(parts[k].token, totalPages)
    ensures var pages := CollectPages(parts, totalPages).value;
            && (forall i :: 0 <= i < |pages| ==> 1 <= pages[i] <= totalPages)
            && (forall p :: p in pages <==> exists k :: 0 <= k < |parts| && Names(parts[k].token, p))
    decreases |parts|
  {
    if parts != [] {
      var tok := parts[0].token;
      CollectOk(parts[1..], totalPages);
      TokenPagesNames(tok, totalPages);
      var rest := CollectPages(parts[1..], totalPages).value;
      var pages := CollectPages(parts, totalPages).value;
      assert pages == TokenPages(tok, totalPages) + rest;
      forall k | 0 <= k < |parts| ensures TokenValid(parts[k].token, totalPages) {
        if k > 0 { assert parts[k] == parts[1..][k - 1]; }
      }
      forall p ensures p in pages <==> exists k :: 0 <= k < |parts| && Names(parts[k].token, p) {
        if p in rest {
          var k :| 0 <= k < |parts[1..]| && Names(parts[1..][k].token, p);
          assert Names(parts[k + 1].token, p);
        }
        if exists k :: 0 <= k < |parts| && Names(parts[k].token, p) {
          var k :| 0 <= k < |parts| && Names(parts[k].token, p);
          if k > 0 {
            assert Names(parts[1..][k - 1].token, p);
          }
        }
      }
    }
  }

  /**
   * On success the pages are strictly ascending, all within 1..totalPages, and
   * they are exactly the pages named by the single pages and inclusive ranges
   * of the list.
   */
  lemma ParseOk(pageRanges: string, totalPages: nat)
    requires ParsePageRanges(pageRanges, totalPages).Ok?
    ensures var pages := ParsePageRanges(pageRanges, totalPages).value;
            var parts := ReadParts(pageRanges);
            && StrictlyIncreasing(pages)
            && (forall i :: 0 <= i < |pages| ==> 1 <= pages[i] <= totalPages)
            && (forall p :: p in pages <==> exists k :: 0 <= k < |parts| && Names(parts[k].token, p))
  {
    var parts := ReadParts(pageRanges);
    CollectOk(parts, totalPages);
    var pushed := CollectPages(parts, totalPages).value;
    var pages := SortedUnique(pushed);
    assert Elems(pages) == Elems(pushed);
    forall i | 0 <= i < |pages| ensures 1 <= pages[i] <= totalPages {
      assert pages[i] in Elems(pushed);
    }
    forall p ensures p in pages <==> p in pushed {
      assert p in pages <==> p in Elems(pages);
      assert p in pushed <==> p in Elems(pushed);
    }
  }

  lemma {:induction false} CollectErr(parts: seq<Part>, totalPages: nat)
    ensures CollectPages(parts, totalPages).Err? <==> exists k :: 0 <= k < |parts| && !TokenValid(parts[k].token, totalPages)
    ensures CollectPages(parts, totalPages).Err? ==>
              exists k :: && 0 <= k < |parts| && !TokenValid(parts[k].token, totalPages)
                          && (forall j :: 0 <= j < k ==> TokenValid(parts[j].token, totalPages))
                          && CollectPages(parts, totalPages).message == ErrorMessage(parts[k])
    decreases |parts|
  {
    if parts != [] {
      CollectErr(parts[1..], totalPages);
      if TokenValid(parts[0].token, totalPages) {
        if exists k :: 0 <= k < |parts| && !TokenValid(parts[k].token, totalPages) {
          var k :| 0 <= k < |parts| && !TokenValid(parts[k].token, totalPages);
          assert parts[1..][k - 1] == parts[k];
        }
        if CollectPages(parts, totalPages).Err? {
          var k :| && 0 <= k < |parts[1..]| && !TokenValid(parts[1..][k].token, totalPages)
                   && (forall j :: 0 <= j < k ==> TokenValid(parts[1..][j].token, totalPages))
                   && CollectPages(parts[1..], totalPages).message == ErrorMessage(parts[1..][k]);
          forall j | 0 <= j < k + 1 ensures TokenValid(parts[j].token, totalPages) {
            if j > 0 { assert parts[j] == parts[1..][j - 1]; }
          }
          assert parts[k + 1] == parts[1..][k];
        }
      }
    }
  }

  /**
   * The parse fails exactly when the field is empty or some part is bad (NaN,
   * a range outside 1..totalPages or reversed, a page outside 1..totalPages);
   * the message then names the first bad part.
   */
  lemma ParseErr(pageRanges: string, totalPages: nat)
    ensures var parts := ReadParts(pageRanges);
            ParsePageRanges(pageRanges, totalPages).Err? <==>
              pageRanges == "" || exists k :: 0 <= k < |parts| && !TokenValid(parts[k].token, totalPages)
    ensures var parts := ReadParts(pageRanges);
            var r := ParsePageRanges(pageRanges, totalPages);
            r.Err? && pageRanges != "" ==>
              exists k :: && 0 <= k < |parts| && !TokenValid(parts[k].token, totalPages)
                          && (forall j :: 0 <= j < k ==> TokenValid(parts[j].token, totalPages))
                          && r.message == ErrorMessage(parts[k])
    ensures pageRanges == "" ==> ParsePageRanges(pageRanges, totalPages) == Err("Page ranges must be specified")
  {
    CollectErr(ReadParts(pageRanges), totalPages);
  }

  lemma ElemsHead(t: seq<int>)
    requires t != []
    ensures t[0] in Elems(t)
  {
  }

  /** A strictly increasing list is determined by its elements. */
  lemma {:induction false} IncreasingUnique(s: seq<int>, t: seq<int>)
    requires StrictlyIncreasing(s) && StrictlyIncreasing(t) && Elems(s) == Elems(t)
    ensures s == t
    decreases |s|
  {
    if t != [] { ElemsHead(t); }
    if s != [] {
      assert s[0] in Elems(t) && t != [];
      assert t[0] in Elems(s);
      var i :| 0 <= i < |t| && t[i] == s[0];
      var j :| 0 <= j < |s| && s[j] == t[0];
      assert s[0] == t[0];
      HeadBelowTail(s);
      HeadBelowTail(t);
      assert Elems(s) == {s[0]} + Elems(s[1..]) by { assert s == [s[0]] + s[1..]; }
      assert Elems(t) == {t[0]} + Elems(t[1..]) by { assert t == [t[0]] + t[1..]; }
      assert Elems(s[1..]) == Elems(t[1..]);
      IncreasingUnique(s[1..], t[1..]);
      assert s == [s[0]] + s[1..] && t == [t[0]] + t[1..];
    }
  }

  /** Rendered numbers hold no white space, hyphen or comma. */
  lemma RenderedPlain(n: nat)
    ensures forall i :: 0 <= i < |NatToString(n)| ==> !IsSpace(NatToString(n)[i])
    ensures '-' !in NatToString(n) && ',' !in NatToString(n)
  {
    var d := NatToString(n);
    forall i | 0 <= i < |d| ensures !IsSpace(d[i]) && d[i] != '-' && d[i] != ',' {
      assert IsDecimalDigit(d[i]);
    }
  }

  /** A rendered page number reads back as that page. */
  lemma ReadRenderedPage(n: nat)
    ensures ReadPart(NatToString(n)) == Part(NatToString(n), Single(Some(n)))
  {
    var d := NatToString(n);
    assert ParseInt(d, 10) == Some(n) by {
      ParseIntNatToString(n, []);
      assert d + [] == d;
    }
    assert Trim(d) == d && '-' !in d by {
      RenderedPlain(n);
      TrimNoSpace(d);
    }
  }

  /** A rendered range "a-b" reads back as the range from a to b. */
  lemma ReadRenderedRange(a: nat, b: nat)
    ensures var t := NatToString(a) + "-" + NatToString(b);
            ReadPart(t) == Part(t, Span(Some(a), Some(b)))
  {
    var da, db := NatToString(a), NatToString(b);
    RenderedPlain(a);
    RenderedPlain(b);
    ParseIntNatToString(a, []);
    ParseIntNatToString(b, []);
    assert da + [] == da && db + [] == db;
    ReadPlainRange(da, db);
  }

  lemma ReadPlainRange(da: string, db: string)
    requires forall i :: 0 <= i < |da| ==> !IsSpace(da[i])
    requires forall i :: 0 <= i < |db| ==> !IsSpace(db[i])
    requires '-' !in da && '-' !in db
    ensures ReadPart(da + "-" + db) == Part(da + "-" + db, Span(ParseInt(da, 10), ParseInt(db, 10)))
  {
    var t := da + "-" + db;
    assert Split(t, '-') == [da, db] by {
      var parts := [da, db];
      assert forall i :: 0 <= i < |parts| ==> '-' !in parts[i];
      SplitJoin(parts, '-');
      assert Join(parts, '-') == t;
    }
    assert Trim(t) == t by {
      forall i | 0 <= i < |t| ensures !IsSpace(t[i]) {
        if i < |da| { assert t[i] == da[i]; }
        else if i > |da| { assert t[i] == db[i - |da| - 1]; }
      }
      TrimNoSpace(t);
    }
    assert '-' in t by { assert t[|da|] == '-'; }
    TrimNoSpace(da);
    TrimNoSpace(db);
  }

  /** A field of one valid part gives the pages of that part, when they ascend. */
  lemma OneValidPart(t: string, part: Part, totalPages: nat)
    requires t != "" && ',' !in t && ReadPart(t) == part
    requires TokenValid(part.token, totalPages) && StrictlyIncreasing(TokenPages(part.token, totalPages))
    ensures ParsePageRanges(t, totalPages) == Ok(TokenPages(part.token, totalPages))
  {
    SplitWithoutSeparator(t, ',');
    assert ReadParts(t) == [part];
    CollectOne(part, totalPages);
    var pages := TokenPages(part.token, totalPages);
    IncreasingUnique(SortedUnique(pages), pages);
  }

  lemma CollectOne(part: Part, totalPages: nat)
    requires TokenValid(part.token, totalPages)
    ensures CollectPages([part], totalPages) == Ok(TokenPages(part.token, totalPages))
  {
    var pages := TokenPages(part.token, totalPages);
    assert [part][1..] == [];
    assert pages + [] == pages;
  }

  /** A field of one bad part fails with that part's message. */
  lemma OneBadPart(t: string, part: Part, totalPages: nat)
    requires t != "" && ',' !in t && ReadPart(t) == part
    requires !TokenValid(part.token, totalPages)
    ensures ParsePageRanges(t, totalPages) == Err(ErrorMessage(part))
  {
    SplitWithoutSeparator(t, ',');
    assert ReadParts(t) == [part];
  }

  /** Rendering one valid page and parsing it gives that page back. */
  lemma PageRoundTrip(n: nat, totalPages: nat)
    requires 1 <= n <= totalPages
    ensures ParsePageRanges(NatToString(n), totalPages) == Ok([n])
  {
    var d := NatToString(n);
    RenderedPlain(n);
    ReadRenderedPage(n);
    OneValidPart(d, Part(d, Single(Some(n))), totalPages);
  }

  /** Rendering a valid range "a-b" and parsing it gives every page from a to b. */
  lemma RangeRoundTrip(a: nat, b: nat, totalPages: nat)
    requires 1 <= a <= b <= totalPages
    ensures ParsePageRanges(NatToString(a) + "-" + NatToString(b), totalPages) == Ok(Interval(a, b))
  {
    var t := NatToString(a) + "-" + NatToString(b);
    RenderedPlain(a);
    RenderedPlain(b);
    assert ',' !in t;
    ReadRenderedRange(a, b);
    OneValidPart(t, Part(t, Span(Some(a), Some(b))), totalPages);
  }

  /** A reversed range fails and names the part. */
  lemma ReversedRangeFails(a: nat, b: nat, totalPages: nat)
    requires b < a
    ensures var t := NatToString(a) + "-" + NatToString(b);
            ParsePageRanges(t, totalPages) == Err("Invalid page range: " + t)
  {
    var t := NatToString(a) + "-" + NatToString(b);
    RenderedPlain(a);
    RenderedPlain(b);
    assert ',' !in t;
    ReadRenderedRange(a, b);
    OneBadPart(t, Part(t, Span(Some(a), Some(b))), totalPages);
  }

  // ---------------------------------------------------------------------
  // The parser as the handler runs it: a loop over the parts pushing pages.

  function PrependPages(done: seq<int>, rest: Result<seq<int>>): Result<seq<int>>
  {
    match rest
    case Err(m) => Err(m)
    case Ok(pages) => Ok(done + pages)
  }

  /** Push `first`, `first + 1`, ..., `last` onto `pages` (the handler's inner for loop). */
  method PushRange(pages: seq<int>, first: int, last: int) returns (out: seq<int>)
    requires first <= last
    ensures out == pages + Interval(first, last)
  {
    out := pages;
    var i := first;
    while i <= last
      invariant first <= i <= last + 1
      invariant |out| == |pages| + (i - first)
      invariant out[..|pages|] == pages
      invariant forall j :: |pages| <= j < |out| ==> out[j] == first + (j - |pages|)
    {
      out := out + [i];
      i := i + 1;
    }
    assert out == pages + Interval(first, last);
  }

  /** Push the pages of one valid part: its page, or every page of its range. */
  method PushToken(pages: seq<int>, tok: Token, totalPages: nat) returns (out: seq<int>)
    requires TokenValid(tok, totalPages)
    ensures out == pages + TokenPages(tok, totalPages)
  {
    match tok {
      case Single(p) =>
        out := pages + [p.value];
      case Span(a, b) =>
        out := PushRange(pages, a.value, b.value);
    }
  }

  /** One step of CollectPages over a valid part. */
  lemma CollectStep(parts: seq<Part>, k: nat, totalPages: nat, done: seq<int>)
    requires k < |parts| && TokenValid(parts[k].token, totalPages)
    requires CollectPages(parts, totalPages) == PrependPages(done, CollectPages(parts[k..], totalPages))
    ensures CollectPages(parts, totalPages)
         == PrependPages(done + TokenPages(parts[k].token, totalPages), CollectPages(parts[k + 1..], totalPages))
  {
    assert parts[k..][0] == parts[k] && parts[k..][1..] == parts[k + 1..];
    var tp := TokenPages(parts[k].token, totalPages);
    match CollectPages(parts[k + 1..], totalPages)
    case Err(m) =>
    case Ok(rest) =>
      assert CollectPages(parts[k..], totalPages) == Ok(tp + rest);
      assert done + (tp + rest) == done + tp + rest;
  }

  method ExtractPageNumbers(pageRanges: string, totalPages: nat) returns (r: Result<seq<int>>)
    ensures r == ParsePageRanges(pageRanges, totalPages)
  {
    if pageRanges == "" {
      return Err("Page ranges must be specified");
    }
    var raw := Split(pageRanges, ',');
    ghost var parts := ReadParts(pageRanges);
    var pageNumbers: seq<int> := [];
    var k := 0;
    assert parts[k..] == parts;
    match CollectPages(parts, totalPages) {
      case Err(_) =>
      case Ok(pages) => assert [] + pages == pages;
    }
    while k < |raw|
      invariant 0 <= k <= |raw| == |parts|
      invariant CollectPages(parts, totalPages) == PrependPages(pageNumbers, CollectPages(parts[k..], totalPages))
    {
      var part := ReadPart(raw[k]);
      assert part == parts[k];
      if !TokenValid(part.token, totalPages) {
        assert parts[k..][0] == parts[k];
        return Err(ErrorMessage(part));
      }
      CollectStep(parts, k, totalPages, pageNumbers);
      pageNumbers := PushToken(pageNumbers, part.token, totalPages);
      k := k + 1;
      assert CollectPages(parts, totalPages) == PrependPages(pageNumbers, CollectPages(parts[k..], totalPages));
    }
    assert parts[k..] == [];
    assert CollectPages(parts, totalPages) == Ok(pageNumbers + []);
    assert pageNumbers + [] == pageNumbers;
    r := Ok(SortedUnique(pageNumbers));
  }
}
