/**
 * The string helpers of the utilities service: CleanText, SplitText,
 * truncateString and uniqid. Strings are sequences of Unicode characters;
 * where Go counts bytes (len, slicing) the model counts UTF-8 bytes or works
 * on a byte sequence.
 */
module Text {
  import opened Wrappers
  import opened Strings

  // --------------------------------------------------------------- CleanText

  /** The characters `[\x20-\x7E]` lets through: printable ASCII, space included. */
  predicate IsPrintable(c: char) { ' ' <= c <= '~' }


  predicate AllPrintable(s: string) {
    forall i :: 0 <= i < |s| ==> IsPrintable(s[i])
  }

  predicate NoDoubleSpace(s: string) {
    forall i :: 0 <= i < |s| - 1 ==> !(s[i] == ' ' && s[i + 1] == ' ')
  }

  /** The first CleanText pass: every character outside `\x20-\x7E` becomes one space. */
  function ReplaceNonPrintable(s: string): (r: string)
    ensures |r| == |s| && AllPrintable(r)
    ensures forall i :: 0 <= i < |s| ==> r[i] == if IsPrintable(s[i]) then s[i] else ' '
  {
    seq(|s|, i requires 0 <= i < |s| => if IsPrintable(s[i]) then s[i] else ' ')
  }

  /** The length of the run of `\s` characters at the start of s. */
  function SpaceRun(s: string): (n: nat)
    ensures n <= |s| && (n == |s| || !IsRegexpSpace(s[n]))
    ensures forall i :: 0 <= i < n ==> IsRegexpSpace(s[i])
  {
    if s != [] && IsRegexpSpace(s[0]) then 1 + SpaceRun(s[1..]) else 0
  }

  /** The second CleanText pass, `\s+` replaced by one space: each maximal run becomes " ". */
  function Collapse(s: string): string
    decreases |s|
  {
    if s == [] then []
    else if IsRegexpSpace(s[0]) then " " + Collapse(s[SpaceRun(s)..])
    else [s[0]] + Collapse(s[1..])
  }

  /**
   * CleanText: non-printable characters become spaces, runs of white space
   * become one space, and the ends are trimmed.
   */
  function CleanText(s: string): (r: string)
    ensures AllPrintable(r) && NoDoubleSpace(r)
    ensures r == [] || (r[0] != ' ' && r[|r| - 1] != ' ')
  {
    var p := ReplaceNonPrintable(s);
    CollapsePrintable(p);
    CollapseNoDoubleSpace(p);
    TrimKeepsShape(Collapse(p));
    TrimSpaceEnds(Collapse(p));
    TrimSpace(Collapse(p))
  }

  /** Trimming cuts a piece out of the middle, so it keeps both properties. */
  lemma TrimKeepsShape(s: string)
    requires AllPrintable(s) && NoDoubleSpace(s)
    ensures AllPrintable(TrimSpace(s)) && NoDoubleSpace(TrimSpace(s))
  {
    var lo, hi := TrimSpaceSlice(s);
    assert forall i :: 0 <= i < hi - lo ==> s[lo..hi][i] == s[lo + i];
  }

  lemma {:induction false} CollapsePrintable(s: string)
    requires AllPrintable(s)
    ensures AllPrintable(Collapse(s))
    decreases |s|
  {
    if s != [] {
      if IsRegexpSpace(s[0]) {
        var rest := s[SpaceRun(s)..];
        CollapsePrintable(rest);
      } else {
        CollapsePrintable(s[1..]);
      }
    }
  }

  /** Collapse never writes two spaces in a row, and starts with a space exactly when its input starts with white space. */
  lemma {:induction false} CollapseNoDoubleSpace(s: string)
    ensures NoDoubleSpace(Collapse(s))
    ensures s != [] ==> Collapse(s) != [] && (Collapse(s)[0] == ' ' <==> IsRegexpSpace(s[0]))
    decreases |s|
  {
    if s != [] {
      var tail := if IsRegexpSpace(s[0]) then s[SpaceRun(s)..] else s[1..];
      CollapseNoDoubleSpace(tail);
      var r := Collapse(s);
      var t := Collapse(tail);
      assert r == [r[0]] + t;
      assert IsRegexpSpace(s[0]) ==> t == [] || t[0] != ' ';
      forall i | 0 <= i < |r| - 1 ensures !(r[i] == ' ' && r[i + 1] == ' ') {
        if i > 0 {
          assert r[i] == t[i - 1] && r[i + 1] == t[i];
        }
      }
    }
  }

  /** Collapse leaves printable text without double spaces as it is. */
  lemma {:induction false} CollapseFixed(s: string)
    requires AllPrintable(s) && NoDoubleSpace(s)
    ensures Collapse(s) == s
    decreases |s|
  {
    if s != [] {
      var t := s[1..];
      assert AllPrintable(t) && NoDoubleSpace(t) by {
        assert forall i :: 0 <= i < |t| ==> t[i] == s[i + 1];
      }
      CollapseFixed(t);
      if IsRegexpSpace(s[0]) {
        assert SpaceRun(s) == 1 by {
          if |s| > 1 {
            assert IsPrintable(s[1]) && s[1] != ' ';
          }
        }
      }
      assert s == [s[0]] + t;
    }
  }

  /** CleanText changes nothing the second time. */
  lemma CleanTextIdempotent(s: string)
    ensures CleanText(CleanText(s)) == CleanText(s)
  {
    var t := CleanText(s);
    assert ReplaceNonPrintable(t) == t;
    CollapseFixed(t);
    TrimSpaceTrimmed(t);
  }

  /** The printable characters of s other than the space, in order. */
  function Graphic(s: string): string {
    Filter((c: char) => '!' <= c <= '~', s)
  }

  lemma GraphicConcat(a: string, b: string)
    ensures Graphic(a + b) == Graphic(a) + Graphic(b)
  {
    FilterConcat((c: char) => '!' <= c <= '~', a, b);
  }

  /** Nothing in a run of white space is graphic. */
  lemma GraphicOfSpaces(s: string)
    requires forall i :: 0 <= i < |s| ==> !('!' <= s[i] <= '~')
    ensures Graphic(s) == []
  {
    FilterNone((c: char) => '!' <= c <= '~', s);
  }

  lemma {:induction false} ReplaceKeepsGraphic(s: string)
    ensures Graphic(ReplaceNonPrintable(s)) == Graphic(s)
    decreases |s|
  {
    if s != [] {
      var r := ReplaceNonPrintable(s);
      assert r[1..] == ReplaceNonPrintable(s[1..]);
      ReplaceKeepsGraphic(s[1..]);
    }
  }

  lemma {:induction false} CollapseKeepsGraphic(s: string)
    ensures Graphic(Collapse(s)) == Graphic(s)
    decreases |s|
  {
    if s != [] {
      if IsRegexpSpace(s[0]) {
        var n := SpaceRun(s);
        CollapseKeepsGraphic(s[n..]);
        GraphicConcat(" ", Collapse(s[n..]));
        assert s == s[..n] + s[n..];
        GraphicConcat(s[..n], s[n..]);
        GraphicOfSpaces(s[..n]);
        GraphicOfSpaces(" ");
      } else {
        CollapseKeepsGraphic(s[1..]);
      }
    }
  }

  lemma TrimKeepsGraphic(s: string)
    ensures Graphic(TrimSpace(s)) == Graphic(s)
  {
    var lo, hi := TrimSpaceSlice(s);
    assert s == s[..lo] + s[lo..hi] + s[hi..];
    GraphicConcat(s[..lo] + s[lo..hi], s[hi..]);
    GraphicConcat(s[..lo], s[lo..hi]);
    GraphicOfSpaces(s[..lo]);
    GraphicOfSpaces(s[hi..]);
  }

  /** Every printable character other than the space survives CleanText, in order, and nothing else is added. */
  lemma CleanTextKeepsGraphic(s: string)
    ensures Graphic(CleanText(s)) == Graphic(s)
  {
    var p := ReplaceNonPrintable(s);
    ReplaceKeepsGraphic(s);
    CollapseKeepsGraphic(p);
    TrimKeepsGraphic(Collapse(p));
  }

  // --------------------------------------------------------------- SplitText

  /** The length of the run of characters other than '.' at the start of s. */
  function NonPeriodRun(s: string): (n: nat)
    ensures n <= |s| && (n == |s| || s[n] == '.')
    ensures forall i :: 0 <= i < n ==> s[i] != '.'
  {
    if s != [] && s[0] != '.' then 1 + NonPeriodRun(s[1..]) else 0
  }

  /**
   * The matches of `([^.]+\.?)\s*`, left to right: a '.' where a match would
   * have to start is skipped; otherwise a match is every character up to the
   * next '.', that '.', and the white space after it.
   */
  function Sentences(s: string): (r: seq<string>)
    ensures forall i :: 0 <= i < |r| ==> r[i] != [] && r[i][0] != '.'
    decreases |s|
  {
    if s == [] then []
    else if s[0] == '.' then Sentences(s[1..])
    else
      var k := SentenceEnd(s);
      [s[..k]] + Sentences(s[k..])
  }

  /** Where the match that starts at the beginning of s ends. */
  function SentenceEnd(s: string): (k: nat)
    requires s != [] && s[0] != '.'
    ensures 1 <= k <= |s|
  {
    var n := NonPeriodRun(s);
    var m := if n < |s| then n + 1 else n;
    m + SpaceRun(s[m..])
  }

  /** The characters of s other than '.', in order. */
  function NonPeriod(s: string): string {
    Filter((c: char) => c != '.', s)
  }

  lemma NonPeriodConcat(a: string, b: string)
    ensures NonPeriod(a + b) == NonPeriod(a) + NonPeriod(b)
  {
    FilterConcat((c: char) => c != '.', a, b);
  }

  /** Dropping periods and dropping white space can be done in either order. */
  lemma {:induction false} NonPeriodNonSpace(s: string)
    ensures NonPeriod(NonSpace(s)) == NonSpace(NonPeriod(s))
    decreases |s|
  {
    if s != [] {
      NonPeriodNonSpace(s[1..]);
      assert s == [s[0]] + s[1..];
      NonSpaceConcat([s[0]], s[1..]);
      NonPeriodConcat([s[0]], s[1..]);
      NonPeriodConcat(NonSpace([s[0]]), NonSpace(s[1..]));
      NonSpaceConcat(NonPeriod([s[0]]), NonPeriod(s[1..]));
    }
  }

  function Concat(parts: seq<string>): string {
    if parts == [] then [] else parts[0] + Concat(parts[1..])
  }

  lemma {:induction false} ConcatAppend(a: seq<string>, b: seq<string>)
    ensures Concat(a + b) == Concat(a) + Concat(b)
    decreases |a|
  {
    if a == [] {
      assert a + b == b;
    } else {
      assert (a + b)[1..] == a[1..] + b;
      ConcatAppend(a[1..], b);
    }
  }

  /** The matches hold every character of the text except periods that no match could start with. */
  lemma {:induction false} SentencesKeepText(s: string)
    ensures NonPeriod(Concat(Sentences(s))) == NonPeriod(s)
    decreases |s|
  {
    if s != [] {
      if s[0] == '.' {
        SentencesKeepText(s[1..]);
      } else {
        var k := SentenceEnd(s);
        SentencesKeepText(s[k..]);
        assert Concat(Sentences(s)) == s[..k] + Concat(Sentences(s[k..]));
        NonPeriodConcat(s[..k], Concat(Sentences(s[k..])));
        assert s == s[..k] + s[k..];
        NonPeriodConcat(s[..k], s[k..]);
      }
    }
  }

  /** SplitText's minSize after its default is applied. */
  function MinSize(minSize: int): int {
    if minSize == 0 then 200 else minSize
  }

  /** Each sentence after trimming. */
  function TrimAll(sentences: seq<string>): (r: seq<string>)
    ensures |r| == |sentences| && forall j :: 0 <= j < |sentences| ==> r[j] == TrimSpace(sentences[j])
  {
    seq(|sentences|, j requires 0 <= j < |sentences| => TrimSpace(sentences[j]))
  }

  /** A finished chunk is appended only when it is not empty, trimmed. */
  function Flush(current: string): seq<string> {
    if current != "" then [TrimSpace(current)] else []
  }

  /** The chunk under construction with one more sentence: a space between the two, unless it was empty. */
  function Joined(current: string, t: string): string {
    (if current != "" then current + " " else current) + t
  }

  /**
   * The chunks SplitText builds from the remaining (already trimmed)
   * sentences when the chunk under construction is `current`: a sentence
   * joins it while the two byte lengths add up to less than minSize;
   * otherwise the chunk is finished and the sentence starts the next one.
   */
  function Pack(sentences: seq<string>, current: string, minSize: int): seq<string>
    decreases |sentences|
  {
    if sentences == [] then Flush(current)
    else
      var t := sentences[0];
      if Utf8Len(current) + Utf8Len(t) < minSize then
        Pack(sentences[1..], Joined(current, t), minSize)
      else
        Flush(current) + Pack(sentences[1..], t, minSize)
  }

  lemma PackStep(sentences: seq<string>, current: string, minSize: int)
    requires sentences != []
    ensures var t := sentences[0];
      Pack(sentences, current, minSize) ==
        if Utf8Len(current) + Utf8Len(t) < minSize then Pack(sentences[1..], Joined(current, t), minSize)
        else Flush(current) + Pack(sentences[1..], t, minSize)
  {
  }

  /** The next sentence finishes the chunk under construction: the finished chunks grow by it. */
  lemma PackFlush(done: seq<string>, sentences: seq<string>, current: string, minSize: int)
    requires sentences != [] && Utf8Len(current) + Utf8Len(sentences[0]) >= minSize
    ensures done + Pack(sentences, current, minSize) == (done + Flush(current)) + Pack(sentences[1..], sentences[0], minSize)
  {
    var tail := Pack(sentences[1..], sentences[0], minSize);
    assert Pack(sentences, current, minSize) == Flush(current) + tail;
    assert done + (Flush(current) + tail) == (done + Flush(current)) + tail;
  }

  /** The chunks of a text. */
  function Chunks(text: string, minSize: int): seq<string> {
    Pack(TrimAll(Sentences(text)), "", MinSize(minSize))
  }

  /**
   * SplitText: one pass over the sentence matches, growing the current chunk
   * and appending a finished one. chunkSize is given its default of 256 when
   * 0 and is not used further, as in the source.
   */
  method SplitText(text: string, chunkSize: int, minSize: int) returns (chunks: seq<string>)
    ensures chunks == Chunks(text, minSize)
  {
    var min := MinSize(minSize);
    var matches := Sentences(text);
    ghost var trimmed := TrimAll(matches);
    ghost var target := Pack(trimmed, "", min);
    chunks := [];
    var current := "";
    var i := 0;
    assert trimmed[i..] == trimmed;
    while i < |matches|
      invariant 0 <= i <= |matches|
      invariant chunks + Pack(trimmed[i..], current, min) == target
    {
      var sentence := TrimSpace(matches[i]);
      ghost var sentences, rest := trimmed[i..], trimmed[i + 1..];
      assert sentences[0] == sentence && sentences[1..] == rest;
      ghost var previous := current;
      if Utf8Len(current) + Utf8Len(sentence) < min {
        if current != "" {
          current := current + " ";
        }
        current := current + sentence;
        assert current == Joined(previous, sentence);
        PackStep(sentences, previous, min);
        assert Pack(sentences, previous, min) == Pack(rest, current, min);
      } else {
        ghost var before := chunks;
        if current != "" {
          chunks := chunks + [TrimSpace(current)];
        }
        current := sentence;
        assert chunks == before + Flush(previous);
        PackFlush(before, sentences, previous, min);
      }
      assert chunks + Pack(rest, current, min) == target;
      i := i + 1;
    }
    assert trimmed[i..] == [];
    if current != "" {
      chunks := chunks + [TrimSpace(current)];
    }
  }


  /** s is not empty and has no white space at either end. */
  predicate Trimmed(s: string) {
    s != [] && !IsSpace(s[0]) && !IsSpace(s[|s| - 1])
  }

  lemma TrimKeepsStart(s: string)
    requires s != [] && !IsSpace(s[0])
    ensures Trimmed(TrimSpace(s))
  {
    var lo, hi := TrimSpaceSlice(s);
    TrimSpaceEnds(s);
  }

  lemma {:induction false} PackTrimmed(sentences: seq<string>, current: string, minSize: int)
    requires forall j :: 0 <= j < |sentences| ==> sentences[j] == [] || !IsSpace(sentences[j][0])
    requires current == "" || !IsSpace(current[0])
    ensures forall i :: 0 <= i < |Pack(sentences, current, minSize)| ==> Trimmed(Pack(sentences, current, minSize)[i])
    decreases |sentences|
  {
    if current != "" {
      TrimKeepsStart(current);
    }
    if sentences != [] {
      var t := sentences[0];
      if Utf8Len(current) + Utf8Len(t) < minSize {
        var next := Joined(current, t);
        assert current != "" ==> next[0] == current[0];
        PackTrimmed(sentences[1..], next, minSize);
      } else {
        PackTrimmed(sentences[1..], t, minSize);
      }
    }
  }

  /** Every chunk is a non-empty string without white space at its ends. */
  lemma ChunksTrimmed(text: string, minSize: int)
    ensures forall i :: 0 <= i < |Chunks(text, minSize)| ==> Trimmed(Chunks(text, minSize)[i])
  {
    var sentences := Sentences(text);
    var trimmed := TrimAll(sentences);
    forall j | 0 <= j < |trimmed| ensures trimmed[j] == [] || !IsSpace(trimmed[j][0]) {
      TrimSpaceEnds(sentences[j]);
    }
    PackTrimmed(trimmed, "", MinSize(minSize));
  }

  lemma FlushKeepsText(current: string)
    ensures NonSpace(Concat(Flush(current))) == NonSpace(current)
  {
    if current != "" {
      var f := Flush(current);
      assert f[0] == TrimSpace(current) && f[1..] == [];
      assert Concat(f) == TrimSpace(current) + Concat([]);
      assert Concat(f) == TrimSpace(current);
      NonSpaceTrim(current);
    } else {
      assert Concat(Flush(current)) == [] == current;
    }
  }

  lemma JoinedKeepsText(current: string, t: string)
    ensures NonSpace(Joined(current, t)) == NonSpace(current) + NonSpace(t)
  {
    if current != "" {
      NonSpaceConcat(current + " ", t);
      NonSpaceConcat(current, " ");
      NonSpaceOfSpaces(" ");
    } else {
      assert Joined(current, t) == t;
      assert NonSpace(current) == [];
    }
  }

  lemma {:induction false} PackKeepsText(sentences: seq<string>, current: string, minSize: int)
    ensures NonSpace(Concat(Pack(sentences, current, minSize))) == NonSpace(current) + NonSpace(Concat(sentences))
    decreases |sentences|
  {
    if sentences == [] {
      FlushKeepsText(current);
    } else {
      var t := sentences[0];
      var rest := sentences[1..];
      assert NonSpace(Concat(sentences)) == NonSpace(t) + NonSpace(Concat(rest)) by {
        NonSpaceConcat(t, Concat(rest));
      }
      PackStep(sentences, current, minSize);
      if Utf8Len(current) + Utf8Len(t) < minSize {
        PackKeepsText(rest, Joined(current, t), minSize);
        JoinedKeepsText(current, t);
      } else {
        var flushed := Flush(current);
        var tail := Pack(rest, t, minSize);
        PackKeepsText(rest, t, minSize);
        assert NonSpace(Concat(flushed + tail)) == NonSpace(current) + NonSpace(Concat(tail)) by {
          ConcatAppend(flushed, tail);
          NonSpaceConcat(Concat(flushed), Concat(tail));
          FlushKeepsText(current);
        }
      }
    }
  }

  lemma {:induction false} TrimAllKeepsText(sentences: seq<string>)
    ensures NonSpace(Concat(TrimAll(sentences))) == NonSpace(Concat(sentences))
    decreases |sentences|
  {
    if sentences != [] {
      var trimmed := TrimAll(sentences);
      assert trimmed[1..] == TrimAll(sentences[1..]);
      TrimAllKeepsText(sentences[1..]);
      NonSpaceTrim(sentences[0]);
      NonSpaceConcat(trimmed[0], Concat(trimmed[1..]));
      NonSpaceConcat(sentences[0], Concat(sentences[1..]));
    }
  }

  /**
   * The chunks hold, in order, every character of the text that is neither
   * white space nor a period skipped by the sentence pattern.
   */
  lemma ChunksKeepText(text: string, minSize: int)
    ensures NonPeriod(NonSpace(Concat(Chunks(text, minSize)))) == NonPeriod(NonSpace(text))
  {
    var sentences := Sentences(text);
    var whole := Concat(sentences);
    assert NonSpace(Concat(Chunks(text, minSize))) == NonSpace(whole) by {
      PackKeepsText(TrimAll(sentences), "", MinSize(minSize));
      TrimAllKeepsText(sentences);
    }
    assert NonPeriod(NonSpace(whole)) == NonSpace(NonPeriod(text)) by {
      NonPeriodNonSpace(whole);
      SentencesKeepText(text);
    }
    NonPeriodNonSpace(text);
  }

  lemma TrimTwice(s: string)
    ensures TrimSpace(TrimSpace(s)) == TrimSpace(s)
  {
    TrimSpaceEnds(s);
    TrimSpaceTrimmed(TrimSpace(s));
  }

  lemma TrimShrinks(s: string)
    ensures Utf8Len(TrimSpace(s)) <= Utf8Len(s)
  {
    var lo, hi := TrimSpaceSlice(s);
    Utf8LenSlice(s, lo, hi);
  }

  lemma {:induction false} PackSizes(sentences: seq<string>, current: string, minSize: int, pool: seq<string>)
    requires forall j :: 0 <= j < |sentences| ==> sentences[j] in pool
    requires forall x :: x in pool ==> TrimSpace(x) == x
    requires current == "" || Utf8Len(current) <= minSize || current in pool
    ensures forall c :: c in Pack(sentences, current, minSize) ==> Utf8Len(c) <= minSize || c in pool
    decreases |sentences|
  {
    TrimShrinks(current);
    if sentences != [] {
      var t := sentences[0];
      assert t in pool;
      if Utf8Len(current) + Utf8Len(t) < minSize {
        var next := Joined(current, t);
        if current != "" {
          Utf8LenConcat(current + " ", t);
          Utf8LenConcat(current, " ");
          assert Utf8Len(next) <= minSize;
        } else {
          assert next == t;
        }
        PackSizes(sentences[1..], next, minSize, pool);
      } else {
        PackSizes(sentences[1..], t, minSize, pool);
      }
    }
  }

  /**
   * A chunk longer than minSize bytes is a single sentence: sentences are only
   * ever joined into a chunk of at most minSize bytes.
   */
  lemma ChunkSizes(text: string, minSize: int)
    ensures var pool := TrimAll(Sentences(text));
      forall c :: c in Chunks(text, minSize) ==> Utf8Len(c) <= MinSize(minSize) || c in pool
  {
    var sentences := Sentences(text);
    var pool := TrimAll(sentences);
    forall x | x in pool ensures TrimSpace(x) == x {
      var j :| 0 <= j < |pool| && pool[j] == x;
      TrimTwice(sentences[j]);
    }
    PackSizes(pool, "", MinSize(minSize), pool);
  }

  // ---------------------------------------------------------- truncateString

  type Byte = b: int | 0 <= b < 256

  /**
   * truncateString works on the bytes of the string: longer than max, the
   * first max bytes are kept; a negative max makes the slice expression panic,
   * modelled as None.
   */
  function TruncateString(str: seq<Byte>, max: int): (r: Option<seq<Byte>>)
    ensures r.None? <==> max < 0
    ensures r.Some? ==> |r.value| == (if |str| <= max then |str| else max) && r.value == str[..|r.value|]
  {
    if |str| > max then
      if max < 0 then None else Some(str[..max])
    else Some(str)
  }

  /** Truncating twice to the same size is truncating once. */
  lemma TruncateIdempotent(str: seq<Byte>, max: int)
    requires max >= 0
    ensures TruncateString(TruncateString(str, max).value, max) == TruncateString(str, max)
  {
  }

  // ------------------------------------------------------------------ uniqid

  /** Go's `%` on integers: the remainder takes the sign of the dividend. */
  function GoRem(a: int, m: int): (r: int)
    requires m > 0
    ensures a >= 0 ==> r == a % m
    ensures a < 0 ==> -m < r <= 0
  {
    if a >= 0 then a % m else -((-a) % m)
  }

  const TwoTo32: int := 0x1_0000_0000

  /**
   * uniqid: UnixNano modulo 2^32, written with `%010x` (lower-case hexadecimal,
   * zero-padded to ten characters, the sign counting towards the width).
   */
  function Uniqid(unixNano: int): (r: string)
    ensures unixNano >= 0 ==> AllBaseDigits(r, 16)
  {
    var v := GoRem(unixNano, TwoTo32);
    if v >= 0 then
      ZeroPadValue(Numeral(v, 16), 10);
      ZeroPad(Numeral(v, 16), 10)
    else "-" + ZeroPad(Numeral(-v, 16), 9)
  }

  /**
   * For a clock at or after 1970 the slug is ten hexadecimal digits worth
   * UnixNano mod 2^32; that value has at most eight digits, so the first two
   * characters are always "00".
   */
  lemma UniqidShape(unixNano: int)
    requires unixNano >= 0
    ensures var r := Uniqid(unixNano);
      |r| == 10 && r[..2] == "00" && AllBaseDigits(r, 16) && NumeralValue(r, 16) == unixNano % TwoTo32
  {
    var v := unixNano % TwoTo32;
    var hex := Numeral(v, 16);
    assert Pow16(8) == TwoTo32;
    NumeralLength(v, 8);
    NumeralValueOfNumeral(v, 16);
    ZeroPadValue(hex, 10);
  }

  /** Before 1970 (a negative UnixNano not divisible by 2^32) the slug starts with a minus sign. */
  lemma UniqidNegative(unixNano: int)
    requires unixNano < 0 && unixNano % TwoTo32 != 0
    ensures var r := Uniqid(unixNano); |r| == 10 && r[0] == '-'
  {
    var v := GoRem(unixNano, TwoTo32);
    assert v < 0;
    assert Pow16(8) == TwoTo32;
    NumeralLength(-v, 8);
  }
}
