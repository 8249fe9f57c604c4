/** The path mini-language: `a.b[0].c` parsed into key and index segments,
    read-only navigation along a parsed path, and the setter that creates
    containers and pads arrays on its way down. */
module Path {
  import opened Json

  /** One step of a path: an object key or an array index. */
  datatype Segment = Key(name: string) | Index(index: nat)

  /** The largest `usize` (a 64-bit target). */
  const USIZE_MAX: nat := 0xFFFF_FFFF_FFFF_FFFF

  // ---------------------------------------------------------------------
  // Parsing

  /** `usize::from_str`: an optional leading '+', then one or more decimal
      digits whose value fits a `usize`. */
  function ParseUsize(t: string): (r: Option<nat>)
    ensures r.Some? ==> r.value <= USIZE_MAX
  {
    var d := if |t| > 0 && t[0] == '+' then t[1..] else t;
    if d == [] || !AllDigits(d) then None
    else if DigitsValue(d) <= USIZE_MAX then Some(DigitsValue(d))
    else None
  }

  /** The decimal text of any `usize` parses back to it. */
  lemma ParseUsizeDecimal(n: nat)
    requires n <= USIZE_MAX
    ensures ParseUsize(DecimalText(n)) == Some(n)
  {
    DecimalTextRoundTrip(n);
    assert IsDigit(DecimalText(n)[0]);
  }

  /** A character that is neither a digit nor a leading '+' makes the parse
      fail. */
  lemma ParseUsizeRejects(t: string, q: nat)
    requires q < |t| && !IsDigit(t[q]) && !(q == 0 && t[q] == '+')
    ensures ParseUsize(t) == None
  {
    if |t| > 0 && t[0] == '+' {
      assert t[1..][q - 1] == t[q];
    }
  }

  /** Where `take_while(|c| c != ']')` stops in `t`: the position of the first
      ']', or the end of `t` when there is none. */
  function FirstClose(t: string): (r: nat)
    ensures r <= |t|
    ensures forall i | 0 <= i < r :: t[i] != ']'
    ensures r < |t| ==> t[r] == ']'
  {
    if t == [] || t[0] == ']' then 0 else 1 + FirstClose(t[1..])
  }

  lemma FirstCloseIs(t: string, r: nat)
    requires r <= |t|
    requires forall i | 0 <= i < r :: t[i] != ']'
    requires r < |t| ==> t[r] == ']'
    ensures FirstClose(t) == r
  {
  }

  /** Pushes the pending key, if any. */
  function Flush(segs: seq<Segment>, cur: string): seq<Segment>
  {
    if cur == [] then segs else segs + [Key(cur)]
  }

  /** The end of the input: an empty result is an error. */
  function Finish(segs: seq<Segment>): Result<seq<Segment>>
  {
    if segs == [] then Err(PathSyntax(EmptyPath)) else Ok(segs)
  }

  /** The tokenizer state machine of `parse_path` run over the unread input
      `s`, with the segments found so far and the key being accumulated. A '.'
      ends the pending key and may not be followed by another '.'; a '[' ends
      the pending key and starts an index; a ']' met here is an error; any
      other character extends the pending key. */
  function Scan(s: string, segs: seq<Segment>, cur: string): (r: Result<seq<Segment>>)
    ensures r.Ok? ==> r.value != [] && segs <= r.value
    decreases |s|, 1
  {
    if s == [] then Finish(Flush(segs, cur))
    else if s[0] == '.' then
      if |s| > 1 && s[1] == '.' then Err(PathSyntax(ConsecutiveDots))
      else Scan(s[1..], Flush(segs, cur), [])
    else if s[0] == '[' then ScanIndex(s[1..], Flush(segs, cur))
    else if s[0] == ']' then Err(PathSyntax(UnexpectedCloseBracket))
    else Scan(s[1..], segs, cur + [s[0]])
  }

  /** The input `t` after a '[': everything up to the next ']' (or up to the
      end of the input when there is none) is the index text, which must be
      non-empty and parse as a `usize`; scanning resumes after the ']'. */
  function ScanIndex(t: string, segs: seq<Segment>): (r: Result<seq<Segment>>)
    ensures r.Ok? ==> segs < r.value && r.value[|segs|].Index?
    decreases |t|, 0
  {
    var j := FirstClose(t);
    var body := t[..j];
    if body == [] then Err(PathSyntax(EmptyIndex))
    else match ParseUsize(body)
      case None => Err(PathSyntax(BadIndex))
      case Some(n) => Scan(if j < |t| then t[j + 1..] else [], segs + [Index(n)], [])
  }

  /** `ScanIndex` once the position of the first ']' is known. */
  lemma ScanIndexAt(t: string, j: nat, segs: seq<Segment>)
    requires j <= |t|
    requires forall i | 0 <= i < j :: t[i] != ']'
    requires j < |t| ==> t[j] == ']'
    ensures ScanIndex(t, segs) ==
      if t[..j] == [] then Err(PathSyntax(EmptyIndex))
      else if ParseUsize(t[..j]).None? then Err(PathSyntax(BadIndex))
      else Scan(if j < |t| then t[j + 1..] else [], segs + [Index(ParseUsize(t[..j]).value)], [])
  {
    FirstCloseIs(t, j);
  }

  /** One step of the tokenizer on a non-empty input. */
  lemma ScanStep(s: string, segs: seq<Segment>, cur: string)
    requires s != []
    ensures s[0] == '.' && |s| > 1 && s[1] == '.' ==> Scan(s, segs, cur) == Err(PathSyntax(ConsecutiveDots))
    ensures s[0] == '.' && !(|s| > 1 && s[1] == '.') ==> Scan(s, segs, cur) == Scan(s[1..], Flush(segs, cur), [])
    ensures s[0] == '[' ==> Scan(s, segs, cur) == ScanIndex(s[1..], Flush(segs, cur))
    ensures s[0] == ']' ==> Scan(s, segs, cur) == Err(PathSyntax(UnexpectedCloseBracket))
    ensures s[0] != '.' && s[0] != '[' && s[0] != ']' ==> Scan(s, segs, cur) == Scan(s[1..], segs, cur + [s[0]])
  {
  }

  /** `ScanIndex` on the input after the '[' at position `i` of `path`, once
      the scan for ']' has stopped at `j`. */
  lemma ScanIndexWithin(path: string, i: nat, j: nat, segs: seq<Segment>)
    requires i < j <= |path|
    requires forall q | i + 1 <= q < j :: path[q] != ']'
    requires j < |path| ==> path[j] == ']'
    ensures ScanIndex(path[i + 1..], segs) ==
      if path[i + 1..j] == [] then Err(PathSyntax(EmptyIndex))
      else if ParseUsize(path[i + 1..j]).None? then Err(PathSyntax(BadIndex))
      else Scan(path[if j < |path| then j + 1 else j..], segs + [Index(ParseUsize(path[i + 1..j]).value)], [])
  {
    var t := path[i + 1..];
    ScanIndexAt(t, j - (i + 1), segs);
    assert t[..j - (i + 1)] == path[i + 1..j];
    if j < |path| {
      assert t[j - (i + 1) + 1..] == path[j + 1..];
    } else {
      assert path[j..] == [];
    }
  }

  /** `take_while(|c| c != ']')` on the characters from position `from`:
      the text before the first ']' at or after `from`, and where that ']'
      stands (the end of the input when there is none). */
  method TakeUntilClose(path: string, from: nat) returns (text: string, j: nat)
    requires from <= |path|
    ensures from <= j <= |path| && text == path[from..j]
    ensures forall q | from <= q < j :: path[q] != ']'
    ensures j < |path| ==> path[j] == ']'
  {
    j := from;
    text := [];
    while j < |path| && path[j] != ']'
      invariant from <= j <= |path|
      invariant text == path[from..j]
      invariant forall q | from <= q < j :: path[q] != ']'
    {
      text := text + [path[j]];
      j := j + 1;
    }
  }

  /** The bracket branch of `parse_path`, for the '[' at position `i`: the
      index text up to the next ']' must be non-empty and parse as a `usize`;
      on success the index is pushed and scanning goes on after the ']'. */
  method ReadIndex(path: string, i: nat, segs: seq<Segment>)
    returns (failure: Option<Error>, next: nat, extended: seq<Segment>)
    requires i < |path|
    ensures i < next <= |path|
    ensures failure.Some? ==> ScanIndex(path[i + 1..], segs) == Err(failure.value)
    ensures failure.None? ==> ScanIndex(path[i + 1..], segs) == Scan(path[next..], extended, [])
  {
    var indexText, j := TakeUntilClose(path, i + 1);
    ScanIndexWithin(path, i, j, segs);
    extended := segs;
    next := if j < |path| then j + 1 else j;
    if indexText == [] {
      return Some(PathSyntax(EmptyIndex)), next, extended;
    }
    var parsed := ParseUsize(indexText);
    if parsed.None? {
      return Some(PathSyntax(BadIndex)), next, extended;
    }
    failure := None;
    extended := segs + [Index(parsed.value)];
  }

  /** `parse_path`: a character loop pushing segments and a pending key. */
  method ParsePath(path: string) returns (r: Result<seq<Segment>>)
    ensures r == Scan(path, [], [])
  {
    var segments: seq<Segment> := [];
    var currentKey: string := [];
    var i := 0;
    while i < |path|
      invariant 0 <= i <= |path|
      invariant Scan(path[i..], segments, currentKey) == Scan(path, [], [])
    {
      var ch := path[i];
      if ch == '.' {
        assert Scan(path[i..], segments, currentKey) ==
          if i + 1 < |path| && path[i + 1] == '.' then Err(PathSyntax(ConsecutiveDots))
          else Scan(path[i + 1..], Flush(segments, currentKey), [])
        by {
          ScanStep(path[i..], segments, currentKey);
          assert path[i..][1..] == path[i + 1..];
        }
        if currentKey != [] {
          segments := segments + [Key(currentKey)];
          currentKey := [];
        }
        if i + 1 < |path| && path[i + 1] == '.' {
          return Err(PathSyntax(ConsecutiveDots));
        }
        i := i + 1;
      } else if ch == '[' {
        assert Scan(path[i..], segments, currentKey) == ScanIndex(path[i + 1..], Flush(segments, currentKey)) by {
          ScanStep(path[i..], segments, currentKey);
          assert path[i..][1..] == path[i + 1..];
        }
        if currentKey != [] {
          segments := segments + [Key(currentKey)];
          currentKey := [];
        }
        var failure, next, extended := ReadIndex(path, i, segments);
        if failure.Some? {
          return Err(failure.value);
        }
        segments := extended;
        i := next;
      } else if ch == ']' {
        ScanStep(path[i..], segments, currentKey);
        return Err(PathSyntax(UnexpectedCloseBracket));
      } else {
        assert Scan(path[i..], segments, currentKey) == Scan(path[i + 1..], segments, currentKey + [ch]) by {
          ScanStep(path[i..], segments, currentKey);
          assert path[i..][1..] == path[i + 1..];
        }
        currentKey := currentKey + [ch];
        i := i + 1;
      }
    }
    if currentKey != [] {
      segments := segments + [Key(currentKey)];
    }
    if segments == [] {
      return Err(PathSyntax(EmptyPath));
    }
    return Ok(segments);
  }

  // ---------------------------------------------------------------------
  // What parsing accepts and produces

  predicate IsSeparator(c: char)
  {
    c == '.' || c == '[' || c == ']'
  }

  /** A key a path can name: non-empty and free of separators. */
  predicate PlainKey(k: string)
  {
    k != [] && forall i | 0 <= i < |k| :: !IsSeparator(k[i])
  }

  /** Segments a path string can express. */
  predicate Expressible(p: seq<Segment>)
  {
    forall i | 0 <= i < |p| ::
      (p[i].Key? ==> PlainKey(p[i].name)) && (p[i].Index? ==> p[i].index <= USIZE_MAX)
  }

  /** Every successful run of the tokenizer from a sound state yields a
      non-empty sequence whose keys are all non-empty and separator-free. */
  lemma {:induction false} ScanProducesExpressible(s: string, segs: seq<Segment>, cur: string)
    requires Expressible(segs)
    requires forall i | 0 <= i < |cur| :: !IsSeparator(cur[i])
    ensures Scan(s, segs, cur).Ok? ==> Scan(s, segs, cur).value != [] && Expressible(Scan(s, segs, cur).value)
    decreases |s|
  {
    if s == [] {
    } else if s[0] == '.' {
      if !(|s| > 1 && s[1] == '.') {
        ScanProducesExpressible(s[1..], Flush(segs, cur), []);
      }
    } else if s[0] == '[' {
      var t := s[1..];
      var j := FirstClose(t);
      var body := t[..j];
      var rest := if j < |t| then t[j + 1..] else [];
      if body != [] && ParseUsize(body).Some? {
        ScanProducesExpressible(rest, Flush(segs, cur) + [Index(ParseUsize(body).value)], []);
      }
    } else if s[0] != ']' {
      ScanProducesExpressible(s[1..], segs, cur + [s[0]]);
    }
  }

  /** A successful parse is non-empty and every key it holds is non-empty. */
  lemma ParseProducesExpressible(path: string)
    ensures Scan(path, [], []).Ok? ==> Scan(path, [], []).value != []
    ensures Scan(path, [], []).Ok? ==> Expressible(Scan(path, [], []).value)
  {
    ScanProducesExpressible(path, [], []);
  }

  /** The documented text of a path: keys joined by '.', indices in brackets. */
  function Render(p: seq<Segment>): string
  {
    if p != [] && p[0].Key? then p[0].name + RenderTail(p[1..]) else RenderTail(p)
  }

  function RenderTail(p: seq<Segment>): string
  {
    if p == [] then []
    else
      var head := match p[0]
        case Key(k) => "." + k
        case Index(n) => "[" + DecimalText(n) + "]";
      head + RenderTail(p[1..])
  }

  lemma {:induction false} ScanPlainChars(k: string, t: string, segs: seq<Segment>, cur: string)
    requires forall i | 0 <= i < |k| :: !IsSeparator(k[i])
    ensures Scan(k + t, segs, cur) == Scan(t, segs, cur + k)
    decreases |k|
  {
    if k != [] {
      assert (k + t)[1..] == k[1..] + t;
      ScanPlainChars(k[1..], t, segs, cur + [k[0]]);
      assert cur + [k[0]] + k[1..] == cur + k;
    } else {
      assert k + t == t;
      assert cur + k == cur;
    }
  }

  lemma {:induction false} ScanRenderTail(p: seq<Segment>, segs: seq<Segment>, cur: string)
    requires Expressible(p)
    requires forall i | 0 <= i < |cur| :: !IsSeparator(cur[i])
    ensures Scan(RenderTail(p), segs, cur) == Finish(Flush(segs, cur) + p)
    decreases |p|, 1
  {
    if p == [] {
      assert Flush(segs, cur) + p == Flush(segs, cur);
    } else if p[0].Key? {
      ScanRenderKey(p, segs, cur);
    } else {
      ScanRenderIndex(p, segs, cur);
    }
  }

  lemma {:induction false} ScanRenderKey(p: seq<Segment>, segs: seq<Segment>, cur: string)
    requires Expressible(p) && p != [] && p[0].Key?
    requires forall i | 0 <= i < |cur| :: !IsSeparator(cur[i])
    ensures Scan(RenderTail(p), segs, cur) == Finish(Flush(segs, cur) + p)
    decreases |p|, 0
  {
    var k := p[0].name;
    var r := RenderTail(p[1..]);
    var s := RenderTail(p);
    var f := Flush(segs, cur);
    assert Expressible(p[1..]) by {
      forall i | 0 <= i < |p[1..]| ensures p[1..][i] == p[i + 1] { }
    }
    assert PlainKey(k) by { assert p[0] == p[0 + 0]; }
    assert s != [] && s[0] == '.' && s[1] == k[0] && s[1..] == k + r by {
      assert s == "." + k + r;
    }
    calc {
      Scan(s, segs, cur);
    == { ScanStep(s, segs, cur); }
      Scan(k + r, f, []);
    == { ScanPlainChars(k, r, f, []); assert [] + k == k; }
      Scan(r, f, k);
    == { ScanRenderTail(p[1..], f, k); }
      Finish(Flush(f, k) + p[1..]);
    == { assert Flush(f, k) + p[1..] == f + p; }
      Finish(f + p);
    }
  }

  lemma {:induction false} ScanRenderIndex(p: seq<Segment>, segs: seq<Segment>, cur: string)
    requires Expressible(p) && p != [] && p[0].Index?
    requires forall i | 0 <= i < |cur| :: !IsSeparator(cur[i])
    ensures Scan(RenderTail(p), segs, cur) == Finish(Flush(segs, cur) + p)
    decreases |p|, 0
  {
    var n := p[0].index;
    var r := RenderTail(p[1..]);
    var s := RenderTail(p);
    var f := Flush(segs, cur);
    assert Expressible(p[1..]) by {
      forall i | 0 <= i < |p[1..]| ensures p[1..][i] == p[i + 1] { }
    }
    assert n <= USIZE_MAX by { assert p[0] == p[0 + 0]; }
    var d := DecimalText(n);
    DecimalTextRoundTrip(n);
    var t := s[1..];
    assert s != [] && s[0] == '[' && t == d + "]" + r by {
      assert s == "[" + d + "]" + r;
    }
    assert t[..|d|] == d && t[|d|] == ']' && t[|d| + 1..] == r;
    assert forall i | 0 <= i < |d| :: t[i] != ']' by {
      forall i | 0 <= i < |d| ensures t[i] != ']' {
        assert t[i] == d[i] && IsDigit(d[i]);
      }
    }
    calc {
      Scan(s, segs, cur);
    == { ScanStep(s, segs, cur); }
      ScanIndex(t, f);
    == { ScanIndexAt(t, |d|, f); ParseUsizeDecimal(n); }
      Scan(r, f + [Index(n)], []);
    == { ScanRenderTail(p[1..], f + [Index(n)], []); }
      Finish(f + [Index(n)] + p[1..]);
    == { assert f + [Index(n)] + p[1..] == f + p; }
      Finish(f + p);
    }
  }

  /** Parsing the documented text of any expressible non-empty path gives that
      path back. */
  lemma ParseRenderRoundTrip(p: seq<Segment>)
    requires p != [] && Expressible(p)
    ensures Scan(Render(p), [], []) == Ok(p)
  {
    assert Expressible(p[1..]) by {
      forall i | 0 <= i < |p[1..]| ensures p[1..][i] == p[i + 1] { }
    }
    if p[0].Key? {
      var k := p[0].name;
      assert PlainKey(k) by { assert p[0] == p[0 + 0]; }
      assert Render(p) == k + RenderTail(p[1..]);
      ScanPlainChars(k, RenderTail(p[1..]), [], []);
      assert [] + k == k;
      ScanRenderTail(p[1..], [], k);
      assert Flush([], k) == [Key(k)];
      assert [Key(k)] + p[1..] == p;
    } else {
      ScanRenderTail(p, [], []);
      assert [] + p == p;
    }
  }

  /** A ".." or a "[]" anywhere in the input makes the parse fail. */
  lemma {:induction false} ScanRejectsBadPair(s: string, j: nat, segs: seq<Segment>, cur: string)
    requires j + 1 < |s|
    requires (s[j] == '.' && s[j + 1] == '.') || (s[j] == '[' && s[j + 1] == ']')
    ensures Scan(s, segs, cur).Err?
    decreases |s|
  {
    if s[0] == '.' {
      if !(|s| > 1 && s[1] == '.') {
        ScanRejectsBadPair(s[1..], j - 1, Flush(segs, cur), []);
      }
    } else if s[0] == '[' {
      var t := s[1..];
      var f := FirstClose(t);
      var body := t[..f];
      if j > 0 && body != [] {
        if j - 1 < f {
          assert body[j - 1] == s[j];
          ParseUsizeRejects(body, j - 1);
        } else {
          assert t[j - 1] == s[j];
          var rest := t[f + 1..];
          assert rest[j - f - 2] == s[j] && rest[j - f - 1] == s[j + 1];
          if ParseUsize(body).Some? {
            ScanRejectsBadPair(rest, j - f - 2, Flush(segs, cur) + [Index(ParseUsize(body).value)], []);
          }
        }
      }
    } else if s[0] != ']' {
      ScanRejectsBadPair(s[1..], j - 1, segs, cur + [s[0]]);
    }
  }

  /** A ']' with no '[' anywhere before it makes the parse fail. */
  lemma {:induction false} ScanRejectsStrayClose(s: string, q: nat, segs: seq<Segment>, cur: string)
    requires q < |s| && s[q] == ']'
    requires forall i | 0 <= i < q :: s[i] != '['
    ensures Scan(s, segs, cur).Err?
    decreases |s|
  {
    if s[0] == '.' {
      if !(|s| > 1 && s[1] == '.') {
        ScanRejectsStrayClose(s[1..], q - 1, Flush(segs, cur), []);
      }
    } else if s[0] != ']' {
      assert s[0] != '[';
      ScanRejectsStrayClose(s[1..], q - 1, segs, cur + [s[0]]);
    }
  }

  /** The documented parses of well-formed paths. */
  lemma ParseDottedExample()
    ensures Scan("a.b.c", [], []) == Ok([Key("a"), Key("b"), Key("c")])
  {
    var p := [Key("a"), Key("b"), Key("c")];
    assert Expressible(p);
    assert Render(p) == "a.b.c";
    ParseRenderRoundTrip(p);
  }

  lemma ParseIndexedExample()
    ensures Scan("a[0].b[1]", [], []) == Ok([Key("a"), Index(0), Key("b"), Index(1)])
  {
    var p := [Key("a"), Index(0), Key("b"), Index(1)];
    assert Expressible(p);
    assert DecimalText(0) == "0" && DecimalText(1) == "1";
    assert Render(p) == "a[0].b[1]";
    ParseRenderRoundTrip(p);
  }

  function MixedPath(): seq<Segment>
  {
    [Key("orders"), Index(0), Key("items"), Index(1), Key("price")]
  }

  lemma RenderMixedTail()
    ensures RenderTail(MixedPath()[2..]) == ".items[1].price"
  {
    var p := MixedPath();
    assert DecimalText(1) == "1";
    assert RenderTail(p[4..]) == ".price";
    assert RenderTail(p[3..]) == "[1]" + ".price";
  }

  lemma RenderMixedIndex()
    ensures RenderTail(MixedPath()[1..]) == "[0].items[1].price"
  {
    var p := MixedPath();
    RenderMixedTail();
    assert DecimalText(0) == "0";
    assert p[1..][1..] == p[2..];
    assert RenderTail(p[1..]) == "[0]" + RenderTail(p[2..]);
  }

  lemma RenderMixedPath()
    ensures Render(MixedPath()) == "orders[0].items[1].price"
  {
    var p := MixedPath();
    RenderMixedIndex();
    assert Render(p) == "orders" + RenderTail(p[1..]);
  }

  lemma ParseMixedExample()
    ensures Scan("orders[0].items[1].price", [], []) == Ok(MixedPath())
  {
    assert Expressible(MixedPath());
    RenderMixedPath();
    ParseRenderRoundTrip(MixedPath());
  }

  /** The documented rejections. */
  lemma ParseRejectionExamples()
    ensures Scan("a..b", [], []).Err? && Scan("a[]", [], []).Err? && Scan("a]", [], []).Err?
  {
    ScanRejectsBadPair("a..b", 1, [], []);
    ScanRejectsBadPair("a[]", 1, [], []);
    ScanRejectsStrayClose("a]", 1, [], []);
  }

  /** The tolerated forms: a single leading or trailing dot, and an index
      whose ']' is missing at the end of the input. */
  lemma ParseLeadingDot()
    ensures Scan(".a", [], []) == Ok([Key("a")])
  {
    assert ".a"[0] == '.' && ".a"[1] == 'a';
    assert ".a"[1..] == "a";
    assert Scan(".a", [], []) == Scan("a", [], []);
    assert "a"[1..] == [];
    assert [] + ['a'] == "a";
    assert Scan("a", [], []) == Scan([], [], "a");
    assert Flush([], "a") == [Key("a")];
  }

  lemma ParseTrailingDot()
    ensures Scan("a.", [], []) == Ok([Key("a")])
  {
    assert "a."[0] == 'a';
    assert "a."[1..] == ".";
    assert [] + ['a'] == "a";
    assert Scan("a.", [], []) == Scan(".", [], "a");
    assert "."[1..] == [];
    assert Flush([], "a") == [Key("a")];
    assert Scan(".", [], "a") == Scan([], [Key("a")], []);
  }

  lemma ParseUnclosedIndex()
    ensures Scan("a[0", [], []) == Ok([Key("a"), Index(0)])
  {
    assert "a[0"[0] == 'a';
    assert "a[0"[1..] == "[0";
    assert [] + ['a'] == "a";
    assert Scan("a[0", [], []) == Scan("[0", [], "a");
    assert "[0"[1..] == "0";
    assert Flush([], "a") == [Key("a")];
    assert Scan("[0", [], "a") == ScanIndex("0", [Key("a")]);
    ScanIndexAt("0", 1, [Key("a")]);
    assert "0"[..1] == "0";
    assert AllDigits("0") && DigitsValue("0") == 0;
    assert ParseUsize("0") == Some(0);
    assert [Key("a")] + [Index(0)] == [Key("a"), Index(0)];
  }

  // ---------------------------------------------------------------------
  // Navigation

  /** `navigate_path`: follows each segment in turn; a key needs an object
      holding it, an index an array long enough; anything else gives None. */
  function Navigate(v: Value, path: seq<Segment>): (r: Option<Value>)
    ensures path == [] ==> r == Some(v)
    ensures |path| == 1 && path[0].Key? ==> r == Get(v, path[0].name)
    ensures path != [] && path[0].Key? && Get(v, path[0].name).None? ==> r == None
    ensures path != [] && path[0].Index? && !(v.Arr? && path[0].index < |v.items|) ==> r == None
    decreases |path|
  {
    if path == [] then Some(v)
    else match path[0]
      case Key(k) => if v.Obj? && k in v.fields then Navigate(v.fields[k], path[1..]) else None
      case Index(i) => if v.Arr? && i < |v.items| then Navigate(v.items[i], path[1..]) else None
  }

  /** Navigating along `p + q` is navigating along `p`, then along `q`. */
  lemma {:induction false} NavigateAppend(v: Value, p: seq<Segment>, q: seq<Segment>)
    ensures Navigate(v, p + q) == if Navigate(v, p).Some? then Navigate(Navigate(v, p).value, q) else None
    decreases |p|
  {
    if p == [] {
      assert p + q == q;
    } else {
      assert (p + q)[0] == p[0];
      assert (p + q)[1..] == p[1..] + q;
      match p[0]
      case Key(k) =>
        if v.Obj? && k in v.fields { NavigateAppend(v.fields[k], p[1..], q); }
      case Index(i) =>
        if v.Arr? && i < |v.items| { NavigateAppend(v.items[i], p[1..], q); }
    }
  }

  // ---------------------------------------------------------------------
  // Setting

  /** `a` extended with Null, one element at a time, until it holds at least
      `n` elements. */
  function Pad(a: seq<Value>, n: nat): (r: seq<Value>)
    ensures n <= |r|
    decreases n - |a|
  {
    if |a| < n then Pad(a + [Null], n) else a
  }

  /** Padding keeps the elements there were, adds only Null, and stops at
      exactly `n` elements unless there were more already. */
  lemma {:induction false} PadProperties(a: seq<Value>, n: nat)
    ensures |Pad(a, n)| == if |a| < n then n else |a|
    ensures Pad(a, n)[..|a|] == a
    ensures forall j | |a| <= j < |Pad(a, n)| :: Pad(a, n)[j] == Null
    decreases n - |a|
  {
    if |a| < n {
      var b := a + [Null];
      PadProperties(b, n);
      assert Pad(a, n) == Pad(b, n);
      assert Pad(b, n)[..|a|] == Pad(b, n)[..|b|][..|a|];
      assert b[..|a|] == a;
      forall j | |a| <= j < |Pad(a, n)| ensures Pad(a, n)[j] == Null {
        if j == |a| {
          assert Pad(b, n)[j] == Pad(b, n)[..|b|][j] == b[j];
        }
      }
    }
  }

  /** The padding loop `while arr.len() <= idx { arr.push(Null) }`. */
  method PadWithNull(a: seq<Value>, idx: nat) returns (r: seq<Value>)
    ensures r == Pad(a, idx + 1) && idx < |r|
  {
    r := a;
    while |r| <= idx
      invariant Pad(r, idx + 1) == Pad(a, idx + 1)
      decreases idx + 1 - |r|
    {
      r := r + [Null];
    }
  }

  /** The container one step of the walk leaves behind at segment `s`: a
      node of the wrong kind is replaced by an empty object or array, and an
      array is padded with Null up to the index. */
  function Reshape(v: Value, s: Segment): Frame
  {
    match s
    case Key(k) => InObj(FieldsOf(v), k)
    case Index(i) => InArr(Pad(ItemsOf(v), i + 1), i)
  }

  /** The child the cursor moves to from a frame: a missing key yields a new
      empty object. */
  function Child(f: Frame): Value
  {
    match f
    case InObj(m, k) => if k in m then m[k] else Obj(map[])
    case InArr(a, i) => if i < |a| then a[i] else Null
  }

  /** The final assignment: a key is always assigned in the reshaped node; an
      index is assigned in the reshaped node when `assignFinalIndex` holds, and
      the node is left alone otherwise. */
  function Assign(v: Value, s: Segment, x: Value, assignFinalIndex: bool): Value
  {
    if s.Key? || assignFinalIndex then Fill(Reshape(v, s), x) else v
  }

  /** What the in-place walk leaves behind when it assigns `x` at `path`:
      every segment but the last reshapes its node and descends, and the last
      one assigns. */
  function SetAtWith(v: Value, path: seq<Segment>, x: Value, assignFinalIndex: bool): (r: Value)
    requires path != []
    ensures path[0].Key? ==> r.Obj? && path[0].name in r.fields
    ensures path[0].Index? && (|path| > 1 || assignFinalIndex) ==> r.Arr? && path[0].index < |r.items|
    ensures path[0].Index? && |path| == 1 && !assignFinalIndex ==> r == v
    decreases |path|
  {
    if |path| == 1 then Assign(v, path[0], x, assignFinalIndex)
    else
      var f := Reshape(v, path[0]);
      Fill(f, SetAtWith(Child(f), path[1..], x, assignFinalIndex))
  }

  /** `set_path` on a non-empty path. */
  function SetAt(v: Value, path: seq<Segment>, x: Value): (r: Value)
    requires path != []
    ensures path[0].Key? ==> r.Obj? && path[0].name in r.fields
    ensures path[0].Index? ==> r.Arr? && path[0].index < |r.items|
  {
    SetAtWith(v, path, x, true)
  }

  /** Putting a child `c` back into the frame of a key step gives an object
      holding the old fields (if the node was an object) plus the key, bound
      to `c`, with every other field untouched. */
  lemma FillReshapeKey(v: Value, k: string, c: Value)
    ensures var r := Fill(Reshape(v, Key(k)), c);
      r.Obj? && r.fields.Keys == FieldsOf(v).Keys + {k} && r.fields[k] == c
      && forall j | j in FieldsOf(v) && j != k :: r.fields[j] == v.fields[j]
  {
  }

  /** Putting a child `c` back into the frame of an index step gives an array
      padded with Null up to the index, holding `c` there, with every other
      element untouched. */
  lemma FillReshapeIndex(v: Value, i: nat, c: Value)
    ensures var r := Fill(Reshape(v, Index(i)), c);
      r.Arr? && |r.items| == (if |ItemsOf(v)| <= i then i + 1 else |ItemsOf(v)|) && r.items[i] == c
      && (forall j | 0 <= j < |ItemsOf(v)| && j != i :: r.items[j] == v.items[j])
      && (forall j | |ItemsOf(v)| <= j < |r.items| && j != i :: r.items[j] == Null)
  {
    var a := Pad(ItemsOf(v), i + 1);
    PadProperties(ItemsOf(v), i + 1);
    assert forall j | 0 <= j < |ItemsOf(v)| :: a[j] == a[..|ItemsOf(v)|][j];
  }

  /** Navigating through a frame the walk left behind reaches the child put
      back into it. */
  lemma NavigateThroughFill(v: Value, path: seq<Segment>, c: Value)
    requires path != []
    ensures Navigate(Fill(Reshape(v, path[0]), c), path) == Navigate(c, path[1..])
  {
    if path[0].Index? {
      assert path[0].index < |Pad(ItemsOf(v), path[0].index + 1)|;
    }
  }

  /** The cursor walk shared by `set_path` and the nested update of a matched
      array element: it descends along all but the last segment, reshaping
      nodes in place, and then performs the final assignment. */
  method WalkAndSet(root: Value, path: seq<Segment>, x: Value, assignFinalIndex: bool) returns (r: Value)
    requires path != []
    ensures r == SetAtWith(root, path, x, assignFinalIndex)
  {
    var frames: seq<Frame> := [];
    var current := root;
    var i := 0;
    while i < |path| - 1
      invariant 0 <= i <= |path| - 1
      invariant Plug(frames, SetAtWith(current, path[i..], x, assignFinalIndex)) == SetAtWith(root, path, x, assignFinalIndex)
      decreases |path| - 1 - i
    {
      var frame, child := Descend(current, path[i]);
      assert path[i..][0] == path[i] && path[i..][1..] == path[i + 1..];
      PlugPush(frames, frame, SetAtWith(child, path[i + 1..], x, assignFinalIndex));
      frames := frames + [frame];
      current := child;
      i := i + 1;
    }
    var written := WriteLast(current, path[i], x, assignFinalIndex);
    assert path[i..] == [path[i]];
    r := Plug(frames, written);
  }

  /** One step down the walk: the node is made an object (or an array, padded
      with Null up to the index) if needed, and the cursor moves to the child,
      created as an empty object when a key is missing. */
  method Descend(current: Value, s: Segment) returns (frame: Frame, child: Value)
    ensures frame == Reshape(current, s) && child == Child(frame)
  {
    match s {
      case Key(k) =>
        var m := FieldsOf(current);
        child := if k in m then m[k] else Obj(map[]);
        frame := InObj(m, k);
      case Index(idx) =>
        var a := PadWithNull(ItemsOf(current), idx);
        child := a[idx];
        frame := InArr(a, idx);
    }
  }

  /** The final assignment of the walk. */
  method WriteLast(current: Value, last: Segment, x: Value, assignFinalIndex: bool) returns (written: Value)
    ensures written == Assign(current, last, x, assignFinalIndex)
  {
    match last {
      case Key(k) =>
        var m := FieldsOf(current);
        written := Obj(m[k := x]);
      case Index(idx) =>
        if assignFinalIndex {
          var a := PadWithNull(ItemsOf(current), idx);
          written := Arr(a[idx := x]);
        } else {
          written := current;
        }
    }
  }

  /** `set_path`: fails only on an empty path. */
  method SetPath(json: Value, path: seq<Segment>, x: Value) returns (r: Result<Value>)
    ensures path == [] ==> r == Err(CannotSetEmptyPath)
    ensures path != [] ==> r == Ok(SetAt(json, path, x))
  {
    if path == [] {
      return Err(CannotSetEmptyPath);
    }
    var updated := WalkAndSet(json, path, x, true);
    return Ok(updated);
  }

  /** After setting, navigating the same path finds the value set. */
  lemma {:induction false} NavigateAfterSet(v: Value, path: seq<Segment>, x: Value)
    requires path != []
    ensures Navigate(SetAt(v, path, x), path) == Some(x)
    decreases |path|
  {
    NavigateAfterSetKeyEnded(v, path, x, true);
  }

  /** The same holds for the walk that skips a final index, whenever it
      assigns at all: when it is told to, or when the path ends with a key. */
  lemma {:induction false} NavigateAfterSetKeyEnded(v: Value, path: seq<Segment>, x: Value, assignFinalIndex: bool)
    requires path != [] && (path[|path| - 1].Key? || assignFinalIndex)
    ensures Navigate(SetAtWith(v, path, x, assignFinalIndex), path) == Some(x)
    decreases |path|
  {
    var f := Reshape(v, path[0]);
    if |path| == 1 {
      NavigateThroughFill(v, path, x);
    } else {
      assert path[1..][|path[1..]| - 1] == path[|path| - 1];
      NavigateAfterSetKeyEnded(Child(f), path[1..], x, assignFinalIndex);
      NavigateThroughFill(v, path, SetAtWith(Child(f), path[1..], x, assignFinalIndex));
    }
  }

  /** When the final index is not assigned, the value given is never written:
      the result does not depend on it, and a one-segment path leaves the value
      unchanged. */
  lemma {:induction false} FinalIndexWritesNothing(v: Value, path: seq<Segment>, x: Value, y: Value)
    requires path != [] && path[|path| - 1].Index?
    ensures SetAtWith(v, path, x, false) == SetAtWith(v, path, y, false)
    ensures |path| == 1 ==> SetAtWith(v, path, x, false) == v
    decreases |path|
  {
    if |path| > 1 {
      assert path[1..][|path[1..]| - 1] == path[|path| - 1];
      FinalIndexWritesNothing(Child(Reshape(v, path[0])), path[1..], x, y);
    }
  }

  /** The documented uses of the setter. */
  lemma SetExamples()
    ensures SetAt(Obj(map["user" := Obj(map[])]), [Key("user"), Key("name")], Str("Alice"))
      == Obj(map["user" := Obj(map["name" := Str("Alice")])])
    ensures SetAt(Obj(map["items" := Arr([])]), [Key("items"), Index(0)], Str("first"))
      == Obj(map["items" := Arr([Str("first")])])
  {
    var a := Pad([], 1);
    assert a == [Null];
    assert a[0 := Str("first")] == [Str("first")];
  }
}
