/**
 * The text primitives of the library (src/StrFilter.php). Each is a function from
 * text to text; `Normalize` alone works on bytes, because it is the stage that
 * rejects malformed UTF-8. Services of the host's Unicode library come in through
 * the `UnicodeData` parameter.
 */
module StrFilter {
  import opened Wrappers
  import opened Unicode
  import opened Utf8
  import StrTr

  // ---------------------------------------------------------------------------
  // Scanning helpers
  // ---------------------------------------------------------------------------

  /** The length of the longest prefix of `t` whose code points all satisfy `p`. */
  function Span(t: Text, p: CodePoint -> bool): (n: nat)
    ensures n <= |t|
    ensures forall i :: 0 <= i < n ==> p(t[i])
    ensures n < |t| ==> !p(t[n])
    decreases |t|
  {
    if t == [] || !p(t[0]) then 0 else 1 + Span(t[1..], p)
  }

  /** The length of the longest suffix of `t` whose code points all satisfy `p`. */
  function TrailingSpan(t: Text, p: CodePoint -> bool): (n: nat)
    ensures n <= |t|
    ensures forall i :: |t| - n <= i < |t| ==> p(t[i])
    ensures n < |t| ==> !p(t[|t| - n - 1])
    decreases |t|
  {
    if t == [] || !p(t[|t| - 1]) then 0 else 1 + TrailingSpan(t[..|t| - 1], p)
  }

  /** `t` with every code point that satisfies `drop` deleted, the others kept in order. */
  function Remove(t: Text, drop: CodePoint -> bool): (r: Text)
    ensures forall i :: 0 <= i < |r| ==> !drop(r[i]) && r[i] in t
    ensures forall c :: multiset(r)[c] == if drop(c) then 0 else multiset(t)[c]
    decreases |t|
  {
    if t == [] then []
    else
      var rest := Remove(t[1..], drop);
      assert t == [t[0]] + t[1..];
      assert multiset(t) == multiset{t[0]} + multiset(t[1..]);
      if drop(t[0]) then rest else [t[0]] + rest
  }

  lemma {:induction false} RemoveConcat(a: Text, b: Text, drop: CodePoint -> bool)
    ensures Remove(a + b, drop) == Remove(a, drop) + Remove(b, drop)
    decreases |a|
  {
    if a == [] {
      assert a + b == b;
    } else {
      assert (a + b)[0] == a[0] && (a + b)[1..] == a[1..] + b;
      RemoveConcat(a[1..], b, drop);
    }
  }

  /** `Remove` leaves a text with nothing to delete as it is. */
  lemma {:induction false} RemoveNothing(t: Text, drop: CodePoint -> bool)
    requires forall i :: 0 <= i < |t| ==> !drop(t[i])
    ensures Remove(t, drop) == t
    decreases |t|
  {
    if t != [] {
      RemoveNothing(t[1..], drop);
    }
  }

  /** `Remove` deletes the whole of a text made only of code points to delete. */
  lemma {:induction false} RemoveAll(t: Text, drop: CodePoint -> bool)
    requires forall i :: 0 <= i < |t| ==> drop(t[i])
    ensures Remove(t, drop) == []
    decreases |t|
  {
    if t != [] {
      RemoveAll(t[1..], drop);
    }
  }

  /** A span that stops inside `a` is not affected by what follows `a`. */
  lemma {:induction false} SpanStopsInside(a: Text, b: Text, p: CodePoint -> bool)
    requires Span(a, p) < |a|
    ensures Span(a + b, p) == Span(a, p)
    decreases |a|
  {
    assert (a + b)[0] == a[0];
    if p(a[0]) {
      assert (a + b)[1..] == a[1..] + b;
      SpanStopsInside(a[1..], b, p);
    }
  }

  /** A span that covers `a` stops at the first code point of `b` when that one fails `p`. */
  lemma {:induction false} SpanStopsAt(a: Text, b: Text, p: CodePoint -> bool)
    requires Span(a, p) == |a| && b != [] && !p(b[0])
    ensures Span(a + b, p) == |a|
    decreases |a|
  {
    if a == [] {
      assert a + b == b;
    } else {
      assert (a + b)[0] == a[0] && (a + b)[1..] == a[1..] + b;
      SpanStopsAt(a[1..], b, p);
    }
  }

  /** str_replace of one code point by another. */
  function Substitute(t: Text, from: CodePoint, to: CodePoint): (r: Text)
    ensures |r| == |t|
    ensures forall i :: 0 <= i < |t| ==> r[i] == if t[i] == from then to else t[i]
    decreases |t|
  {
    if t == [] then [] else [if t[0] == from then to else t[0]] + Substitute(t[1..], from, to)
  }

  // ---------------------------------------------------------------------------
  // normalize (src/StrFilter.php:11, 36-42)
  // ---------------------------------------------------------------------------

  /**
   * The code points the composition-exclusion pattern leaves out of its runs:
   * the ranges its character class lists, in ascending order.
   */
  predicate IsCompositionExclusion(c: CodePoint) {
    || c == 0x0340 || c == 0x0341 || c == 0x0343 || c == 0x0344 || c == 0x0374 || c == 0x037E
    || c == 0x0387 || (0x0958 <= c <= 0x095F) || c == 0x09DC || c == 0x09DD || c == 0x09DF
    || c == 0x0A33 || c == 0x0A36 || (0x0A59 <= c <= 0x0A5B) || c == 0x0A5E || c == 0x0B5C
    || c == 0x0B5D || c == 0x0F43 || c == 0x0F4D || c == 0x0F52 || c == 0x0F57 || c == 0x0F5C
    || c == 0x0F69 || c == 0x0F73 || c == 0x0F75 || c == 0x0F76 || c == 0x0F78 || c == 0x0F81
    || c == 0x0F93 || c == 0x0F9D || c == 0x0FA2 || c == 0x0FA7 || c == 0x0FAC || c == 0x0FB9
    || c == 0x1F71 || c == 0x1F73 || c == 0x1F75 || c == 0x1F77 || c == 0x1F79 || c == 0x1F7B
    || c == 0x1F7D || c == 0x1FBB || c == 0x1FBE || c == 0x1FC9 || c == 0x1FCB || c == 0x1FD3
    || c == 0x1FDB || c == 0x1FE3 || c == 0x1FEB || c == 0x1FEE || c == 0x1FEF || c == 0x1FF9
    || c == 0x1FFB || c == 0x1FFD || c == 0x2000 || c == 0x2001 || c == 0x2126 || c == 0x212A
    || c == 0x212B || c == 0x2329 || c == 0x232A || c == 0x2ADC || (0xF900 <= c <= 0xFA0D)
    || c == 0xFA10 || c == 0xFA12 || (0xFA15 <= c <= 0xFA1E) || c == 0xFA20 || c == 0xFA22
    || c == 0xFA25 || c == 0xFA26 || (0xFA2A <= c <= 0xFA6D) || (0xFA70 <= c <= 0xFAD9)
    || c == 0xFB1D || c == 0xFB1F || (0xFB2A <= c <= 0xFB36) || (0xFB38 <= c <= 0xFB3C)
    || c == 0xFB3E || c == 0xFB40 || c == 0xFB41 || c == 0xFB43 || c == 0xFB44
    || (0xFB46 <= c <= 0xFB4E) || (0x1D15E <= c <= 0x1D164) || (0x1D1BB <= c <= 0x1D1C0)
    || (0x2F800 <= c <= 0x2FA1D)
  }

  /**
   * The class of the pattern itself, [^…]: a code point that may be part of a
   * run handed to NFC.
   */
  predicate Composable(c: CodePoint) {
    !IsCompositionExclusion(c)
  }

  /**
   * The replacement callback of normalize over a decoded text: every maximal run
   * of code points in the class `composable` (each match of the pattern) is
   * handed to `nfc`, every other code point is kept as it is.
   */
  function NormalizeRuns(nfc: Text -> Text, composable: CodePoint -> bool, t: Text): (r: Text)
    ensures (forall i :: 0 <= i < |t| ==> !composable(t[i])) ==> r == t
    decreases |t|
  {
    if t == [] then []
    else if !composable(t[0]) then [t[0]] + NormalizeRuns(nfc, composable, t[1..])
    else
      var n := Span(t, composable);
      nfc(t[..n]) + NormalizeRuns(nfc, composable, t[n..])
  }

  /**
   * normalize: malformed UTF-8 yields the empty string (the failed match returns
   * null, which `?? ''` turns into ''); otherwise the text with its runs between
   * composition exclusions normalised, encoded back to UTF-8.
   */
  function Normalize(u: UnicodeData, s: Bytes): (r: Bytes)
    ensures WellFormed(r)
    ensures !WellFormed(s) ==> r == []
    ensures WellFormed(s) ==>
              && Decode(s).Some?
              && Decode(r) == Some(NormalizeRuns(u.nfc, Composable, Decode(s).value))
  {
    DecodeDefinedIffWellFormed(s);
    match Decode(s)
    case None => []
    case Some(t) =>
      var n := NormalizeRuns(u.nfc, Composable, t);
      EncodeWellFormed(n);
      DecodeEncode(n);
      Encode(n)
  }

  /** A non-empty text of composable code points only is one run, handed to NFC whole. */
  lemma RunIsNormalizedWhole(nfc: Text -> Text, composable: CodePoint -> bool, t: Text)
    requires t != []
    requires forall i :: 0 <= i < |t| ==> composable(t[i])
    ensures NormalizeRuns(nfc, composable, t) == nfc(t)
  {
    var n := Span(t, composable);
    assert n == |t|;
    assert t[..n] == t && t[n..] == [];
  }

  /** A text starting with a run that ends inside `a` hands that run to NFC, whatever follows `a`. */
  lemma RunInside(nfc: Text -> Text, composable: CodePoint -> bool, a: Text, r: Text)
    requires a != [] && composable(a[0]) && Span(a, composable) < |a|
    ensures var m := Span(a, composable);
      && NormalizeRuns(nfc, composable, a + r)
         == nfc(a[..m]) + NormalizeRuns(nfc, composable, a[m..] + r)
      && NormalizeRuns(nfc, composable, a) == nfc(a[..m]) + NormalizeRuns(nfc, composable, a[m..])
  {
    var m := Span(a, composable);
    SpanStopsInside(a, r, composable);
    var t := a + r;
    assert t[0] == a[0];
    assert t[..m] == a[..m];
    assert t[m..] == a[m..] + r;
  }

  /** A run that covers all of `a` ends at the code point outside the class after it. */
  lemma RunEndsAt(nfc: Text -> Text, composable: CodePoint -> bool, a: Text, x: CodePoint, b: Text)
    requires a != [] && composable(a[0]) && Span(a, composable) == |a| && !composable(x)
    ensures NormalizeRuns(nfc, composable, a + ([x] + b))
         == nfc(a) + ([x] + NormalizeRuns(nfc, composable, b))
    ensures NormalizeRuns(nfc, composable, a) == nfc(a)
  {
    var r := [x] + b;
    SpanStopsAt(a, r, composable);
    var t := a + r;
    assert t[0] == a[0];
    assert t[..|a|] == a && t[|a|..] == r;
    assert r[1..] == b;
    assert a[..|a|] == a && a[|a|..] == [];
  }

  /**
   * A code point outside the class stays where it is, and it splits the text: what lies on
   * either side of it is normalised independently.
   */
  lemma {:induction false} RunsSplitAtExclusion(nfc: Text -> Text, composable: CodePoint -> bool,
                                                a: Text, x: CodePoint, b: Text)
    requires !composable(x)
    ensures NormalizeRuns(nfc, composable, a + [x] + b)
         == NormalizeRuns(nfc, composable, a) + [x] + NormalizeRuns(nfc, composable, b)
    decreases |a|
  {
    var r := [x] + b;
    assert a + [x] + b == a + r;
    if a == [] {
      assert a + r == r && r[1..] == b;
    } else if !composable(a[0]) {
      assert (a + r)[0] == a[0] && (a + r)[1..] == a[1..] + [x] + b;
      RunsSplitAtExclusion(nfc, composable, a[1..], x, b);
    } else if Span(a, composable) < |a| {
      var m := Span(a, composable);
      RunInside(nfc, composable, a, r);
      assert a[m..] + r == a[m..] + [x] + b;
      RunsSplitAtExclusion(nfc, composable, a[m..], x, b);
      var p, q, w := nfc(a[..m]), NormalizeRuns(nfc, composable, a[m..]), NormalizeRuns(nfc, composable, b);
      assert p + (q + [x] + w) == p + q + [x] + w;
    } else {
      RunEndsAt(nfc, composable, a, x, b);
      var p, w := nfc(a), NormalizeRuns(nfc, composable, b);
      assert p + ([x] + w) == p + [x] + w;
    }
  }

  /** U+FA45 and U+FA19, in the sample below, are outside the class of the pattern. */
  lemma SampleExclusions()
    ensures !Composable(0xFA45) && !Composable(0xFA19)
  {
  }

  /** U+6D77, U+795E and the space, in the sample below, are in the class of the pattern. */
  lemma SampleComposable()
    ensures Composable(0x6D77) && Composable(0x20) && Composable(0x795E)
  {
  }

  /**
   * Two code points outside the class, each between non-empty runs of the class,
   * cut the text into three runs, each handed to NFC whole.
   */
  lemma TwoExclusions(nfc: Text -> Text, composable: CodePoint -> bool,
                      a: Text, x: CodePoint, b: Text, y: CodePoint, c: Text)
    requires !composable(x) && !composable(y)
    requires a != [] && b != [] && c != []
    requires forall i :: 0 <= i < |a| ==> composable(a[i])
    requires forall i :: 0 <= i < |b| ==> composable(b[i])
    requires forall i :: 0 <= i < |c| ==> composable(c[i])
    ensures NormalizeRuns(nfc, composable, a + [x] + b + [y] + c)
         == nfc(a) + [x] + nfc(b) + [y] + nfc(c)
  {
    var r := b + [y] + c;
    assert a + [x] + b + [y] + c == a + [x] + r;
    RunsSplitAtExclusion(nfc, composable, a, x, r);
    RunsSplitAtExclusion(nfc, composable, b, y, c);
    RunIsNormalizedWhole(nfc, composable, a);
    RunIsNormalizedWhole(nfc, composable, b);
    RunIsNormalizedWhole(nfc, composable, c);
    var p, q, w := nfc(a), nfc(b), nfc(c);
    assert p + [x] + (q + [y] + w) == p + [x] + q + [y] + w;
  }

  /**
   * The compatibility ideographs U+FA45 and U+FA19 are composition exclusions:
   * in "海\u{FA45} 神\u{FA19} " both are kept, and only the runs beside them
   * reach NFC.
   */
  lemma KeepsCompatibilityIdeographs(u: UnicodeData)
    ensures NormalizeRuns(u.nfc, Composable, [0x6D77, 0xFA45, 0x20, 0x795E, 0xFA19, 0x20])
         == u.nfc([0x6D77]) + [0xFA45] + u.nfc([0x20, 0x795E]) + [0xFA19] + u.nfc([0x20])
  {
    SampleExclusions();
    SampleComposable();
    TwoExclusions(u.nfc, Composable, [0x6D77], 0xFA45, [0x20, 0x795E], 0xFA19, [0x20]);
    assert [0x6D77] + [0xFA45] + [0x20, 0x795E] + [0xFA19] + [0x20]
        == [0x6D77, 0xFA45, 0x20, 0x795E, 0xFA19, 0x20];
  }

  /** The overlong two-, three- and four-byte forms of U+0032 come out empty. */
  lemma RejectsOverlongForms(u: UnicodeData)
    ensures Normalize(u, [0xC0, 0xB2]) == []
    ensures Normalize(u, [0xE0, 0x80, 0xB2]) == []
    ensures Normalize(u, [0xF0, 0x80, 0x80, 0xB2]) == []
  {
  }

  /** A malformed sample comes out empty: a stray 0x92 and 0xFF inside "あいう\n…えお". */
  lemma RejectsStrayBytes(u: UnicodeData)
    ensures Normalize(u, [0xE3, 0x81, 0x82, 0xE3, 0x81, 0x84, 0xE3, 0x81, 0x86, 0x0A, 0x92, 0xFF,
                          0xE3, 0x81, 0x88, 0xE3, 0x81, 0x8A]) == []
  {
    var s: Bytes := [0xE3, 0x81, 0x82, 0xE3, 0x81, 0x84, 0xE3, 0x81, 0x86, 0x0A, 0x92, 0xFF,
                     0xE3, 0x81, 0x88, 0xE3, 0x81, 0x8A];
    if WellFormed(s) {
      NoForbiddenOctet(s, 11);
    }
  }

  // ---------------------------------------------------------------------------
  // normalizeNewlines, noNewlines (src/StrFilter.php:15, 44-47, 59-62)
  // ---------------------------------------------------------------------------

  /** A code point the newline pattern \r\n?|[\n\x{2028}\x{2029}] can start a match at. */
  predicate IsLineBreak(c: CodePoint) {
    c == CR || c == LF || c == LINE_SEPARATOR || c == PARAGRAPH_SEPARATOR
  }

  /**
   * preg_replace with the newline pattern and a one-code-point replacement:
   * scanning left to right, CR LF is one match, and so is each other CR, LF,
   * U+2028 and U+2029.
   */
  function ReplaceLineBreaks(t: Text, rep: CodePoint): (r: Text)
    ensures |r| <= |t|
    ensures forall i :: 0 <= i < |r| ==> r[i] == rep || !IsLineBreak(r[i])
    decreases |t|
  {
    if t == [] then []
    else if t[0] == CR then
      [rep] + ReplaceLineBreaks(if |t| > 1 && t[1] == LF then t[2..] else t[1..], rep)
    else if IsLineBreak(t[0]) then [rep] + ReplaceLineBreaks(t[1..], rep)
    else [t[0]] + ReplaceLineBreaks(t[1..], rep)
  }

  /** normalizeNewlines: every line break, CR LF included, becomes one LF. */
  function NormalizeNewlines(t: Text): (r: Text)
    ensures forall i :: 0 <= i < |r| ==>
              r[i] != CR && r[i] != LINE_SEPARATOR && r[i] != PARAGRAPH_SEPARATOR
  {
    ReplaceLineBreaks(t, LF)
  }

  /** noNewlines: every line break, CR LF included, becomes one space. */
  function NoNewlines(t: Text): (r: Text)
    ensures forall i :: 0 <= i < |r| ==> !IsLineBreak(r[i])
  {
    ReplaceLineBreaks(t, SPACE)
  }

  /** CR LF is one line break, replaced once; a CR on its own is one too. */
  lemma CrLfIsOneBreak(t: Text, rep: CodePoint)
    ensures ReplaceLineBreaks([CR, LF] + t, rep) == [rep] + ReplaceLineBreaks(t, rep)
    ensures t == [] || t[0] != LF ==> ReplaceLineBreaks([CR] + t, rep) == [rep] + ReplaceLineBreaks(t, rep)
  {
    assert ([CR, LF] + t)[2..] == t;
    assert ([CR] + t)[1..] == t;
  }

  /**
   * LF, U+2028 and U+2029 are each one line break, replaced once; any other
   * code point is copied.
   */
  lemma OtherBreaksAreOne(c: CodePoint, t: Text, rep: CodePoint)
    ensures c == LF || c == LINE_SEPARATOR || c == PARAGRAPH_SEPARATOR ==>
              ReplaceLineBreaks([c] + t, rep) == [rep] + ReplaceLineBreaks(t, rep)
    ensures !IsLineBreak(c) ==> ReplaceLineBreaks([c] + t, rep) == [c] + ReplaceLineBreaks(t, rep)
  {
    assert ([c] + t)[1..] == t;
  }

  /** A text whose only line breaks are LFs is left as it is. */
  lemma {:induction false} NormalizeNewlinesFixesLf(t: Text)
    requires forall i :: 0 <= i < |t| ==>
               t[i] != CR && t[i] != LINE_SEPARATOR && t[i] != PARAGRAPH_SEPARATOR
    ensures NormalizeNewlines(t) == t
    decreases |t|
  {
    if t != [] {
      NormalizeNewlinesFixesLf(t[1..]);
    }
  }

  /** normalizeNewlines is idempotent. */
  lemma NormalizeNewlinesIdempotent(t: Text)
    ensures NormalizeNewlines(NormalizeNewlines(t)) == NormalizeNewlines(t)
  {
    NormalizeNewlinesFixesLf(NormalizeNewlines(t));
  }

  /** noNewlines puts a space exactly where normalizeNewlines puts an LF. */
  lemma {:induction false} NoNewlinesIsSpacedNormalize(t: Text)
    ensures NoNewlines(t) == Substitute(NormalizeNewlines(t), LF, SPACE)
    decreases |t|
  {
    if t != [] {
      var rest := if t[0] == CR && |t| > 1 && t[1] == LF then t[2..]
                  else t[1..];
      NoNewlinesIsSpacedNormalize(rest);
    }
  }

  /** Apart from line breaks, normalizeNewlines keeps every code point, in order. */
  lemma {:induction false} NormalizeNewlinesKeepsText(t: Text)
    ensures Remove(NormalizeNewlines(t), IsLineBreak) == Remove(t, IsLineBreak)
    decreases |t|
  {
    if t != [] {
      if t[0] == CR && |t| > 1 && t[1] == LF {
        NormalizeNewlinesKeepsText(t[2..]);
        assert t[1..][1..] == t[2..];
      } else {
        NormalizeNewlinesKeepsText(t[1..]);
      }
    }
  }

  // ---------------------------------------------------------------------------
  // noControlCharacters (src/StrFilter.php:13, 49-52)
  // ---------------------------------------------------------------------------

  /** The class [^\P{C}\r\n\t]: general category C other than TAB, LF and CR. */
  predicate IsStrippedControl(u: UnicodeData, c: CodePoint) {
    u.isOther(c) && c != TAB && c != LF && c != CR
  }

  /** noControlCharacters: each maximal run of stripped controls is deleted. */
  function NoControlCharacters(u: UnicodeData, t: Text): (r: Text)
    ensures |r| <= |t|
    ensures forall i :: 0 <= i < |r| ==> !IsStrippedControl(u, r[i])
    decreases |t|
  {
    if t == [] then []
    else if IsStrippedControl(u, t[0]) then
      var n := Span(t, (c: CodePoint) => IsStrippedControl(u, c));
      NoControlCharacters(u, t[n..])
    else [t[0]] + NoControlCharacters(u, t[1..])
  }

  /**
   * Deleting runs is deleting code points: the result is the input with exactly
   * the stripped controls removed, all other code points kept in order.
   */
  lemma {:induction false} NoControlCharactersRemoves(u: UnicodeData, t: Text)
    ensures NoControlCharacters(u, t) == Remove(t, (c: CodePoint) => IsStrippedControl(u, c))
    decreases |t|
  {
    var drop := (c: CodePoint) => IsStrippedControl(u, c);
    if t != [] {
      if IsStrippedControl(u, t[0]) {
        var n := Span(t, (c: CodePoint) => IsStrippedControl(u, c));
        assert t == t[..n] + t[n..];
        RemoveConcat(t[..n], t[n..], drop);
        RemoveAll(t[..n], drop);
        NoControlCharactersRemoves(u, t[n..]);
      } else {
        NoControlCharactersRemoves(u, t[1..]);
      }
    }
  }

  /** No stripped control survives, and every other code point keeps its count. */
  lemma NoControlCharactersContents(u: UnicodeData, t: Text)
    ensures var r := NoControlCharacters(u, t);
      && (forall i :: 0 <= i < |r| ==> !IsStrippedControl(u, r[i]))
      && (forall c :: !IsStrippedControl(u, c) ==> multiset(r)[c] == multiset(t)[c])
  {
    NoControlCharactersRemoves(u, t);
  }

  /** noControlCharacters is idempotent. */
  lemma NoControlCharactersIdempotent(u: UnicodeData, t: Text)
    ensures NoControlCharacters(u, NoControlCharacters(u, t)) == NoControlCharacters(u, t)
  {
    var r := NoControlCharacters(u, t);
    NoControlCharactersRemoves(u, t);
    NoControlCharactersRemoves(u, r);
    RemoveNothing(r, (c: CodePoint) => IsStrippedControl(u, c));
  }

  // ---------------------------------------------------------------------------
  // noTabs (src/StrFilter.php:54-57)
  // ---------------------------------------------------------------------------

  /** noTabs: str_replace of TAB by a space. */
  function NoTabs(t: Text): (r: Text)
    ensures |r| == |t|
    ensures forall i :: 0 <= i < |r| ==> r[i] != TAB
  {
    Substitute(t, TAB, SPACE)
  }

  /** noTabs keeps the length, leaves no TAB, and changes no other position. */
  lemma NoTabsContents(t: Text)
    ensures var r := NoTabs(t);
      && |r| == |t|
      && (forall i :: 0 <= i < |r| ==> r[i] != TAB)
      && (forall i :: 0 <= i < |t| && t[i] != TAB ==> r[i] == t[i])
      && (forall i :: 0 <= i < |t| && t[i] == TAB ==> r[i] == SPACE)
  {
  }

  lemma NoTabsIdempotent(t: Text)
    ensures NoTabs(NoTabs(t)) == NoTabs(t)
  {
    var r := NoTabs(t);
    assert forall i :: 0 <= i < |r| ==> NoTabs(r)[i] == r[i];
  }

  // ---------------------------------------------------------------------------
  // noWritingDirections (src/StrFilter.php:17, 64-67)
  // ---------------------------------------------------------------------------

  /** The class [\x{200E}\x{200F}\x{202A}-\x{202E}]: marks, embeddings and overrides. */
  predicate IsDirectionControl(c: CodePoint) {
    c == 0x200E || c == 0x200F || (0x202A <= c <= 0x202E)
  }

  /** noWritingDirections: each code point of the class is deleted. */
  function NoWritingDirections(t: Text): (r: Text)
    ensures forall i :: 0 <= i < |r| ==> !IsDirectionControl(r[i]) && r[i] in t
  {
    Remove(t, IsDirectionControl)
  }

  /** No direction control survives, and every other code point keeps its count. */
  lemma NoWritingDirectionsContents(t: Text)
    ensures var r := NoWritingDirections(t);
      && (forall i :: 0 <= i < |r| ==> !IsDirectionControl(r[i]))
      && (forall c :: !IsDirectionControl(c) ==> multiset(r)[c] == multiset(t)[c])
      && (forall c :: IsDirectionControl(c) ==> multiset(r)[c] == 0)
  {
  }

  /** The isolate controls U+2066 to U+2069 are not in the class and pass through. */
  lemma IsolatesPassThrough()
    ensures NoWritingDirections([0x2066, 0x2067, 0x2068, 0x2069]) == [0x2066, 0x2067, 0x2068, 0x2069]
  {
    RemoveNothing([0x2066, 0x2067, 0x2068, 0x2069], IsDirectionControl);
  }

  // ---------------------------------------------------------------------------
  // trim (src/StrFilter.php:69-72)
  // ---------------------------------------------------------------------------

  /**
   * trim: preg_replace of /\A\s+|\s+\z/u by '': the leading run of white space and
   * the trailing run of white space are deleted.
   */
  function Trim(u: UnicodeData, t: Text): (r: Text)
    ensures r == [] || (!u.isSpace(r[0]) && !u.isSpace(r[|r| - 1]))
  {
    var i := Span(t, u.isSpace);
    if i == |t| then []
    else
      var j := |t| - TrailingSpan(t, u.isSpace);
      t[i..j]
  }

  /**
   * The result of trim is one slice of the input: everything before it and
   * everything after it is white space, and the interior is untouched.
   */
  lemma TrimIsSlice(u: UnicodeData, t: Text)
    ensures exists i, j ::
              && 0 <= i <= j <= |t| && Trim(u, t) == t[i..j]
              && (forall k :: 0 <= k < i ==> u.isSpace(t[k]))
              && (forall k :: j <= k < |t| ==> u.isSpace(t[k]))
  {
    var i := Span(t, u.isSpace);
    if i == |t| {
      assert Trim(u, t) == t[|t|..|t|];
    } else {
      var j := |t| - TrailingSpan(t, u.isSpace);
      assert Trim(u, t) == t[i..j];
    }
  }

  lemma TrimIdempotent(u: UnicodeData, t: Text)
    ensures Trim(u, Trim(u, t)) == Trim(u, t)
  {
    var r := Trim(u, t);
    if r != [] {
      assert Span(r, u.isSpace) == 0;
      assert TrailingSpan(r, u.isSpace) == 0;
      assert r[0..|r|] == r;
    }
  }

  // ---------------------------------------------------------------------------
  // upper, lower, and the mb_convert_kana family (src/StrFilter.php:74-117)
  // ---------------------------------------------------------------------------

  function Upper(u: UnicodeData, t: Text): (r: Text) {
    u.toUpper(t)
  }

  function Lower(u: UnicodeData, t: Text): (r: Text) {
    u.toLower(t)
  }

  function HankakuAlpha(u: UnicodeData, t: Text): (r: Text) {
    u.convertKana(t, "r")
  }

  function HankakuDigits(u: UnicodeData, t: Text): (r: Text) {
    u.convertKana(t, "n")
  }

  function NoHankakuKana(u: UnicodeData, t: Text): (r: Text) {
    u.convertKana(t, "KV")
  }

  /** The fix-up table of hankaku: fullwidth quotation mark and apostrophe. */
  const HANKAKU_QUOTES: map<Text, Text> := map[[0xFF02] := [0x22], [0xFF07] := [0x27]]

  /** KATAKANA_HIRAGANA_MAP; the first key is う (U+3046) followed by ゛ (U+309B). */
  const KATAKANA_HIRAGANA: map<Text, Text> := map[
    [0x3046, 0x309B] := [0x3094],
    [0x30F4] := [0x3094],
    [0x30F5] := [0x3095],
    [0x30F6] := [0x3096],
    [0x30FD] := [0x309D],
    [0x30FE] := [0x309E]
  ]

  /** HIRAGANA_KATAKANA_MAP */
  const HIRAGANA_KATAKANA: map<Text, Text> := map[
    [0x3094] := [0x30F4],
    [0x3095] := [0x30F5],
    [0x3096] := [0x30F6],
    [0x309D] := [0x30FD],
    [0x309E] := [0x30FE]
  ]

  const QUOTE_KEY_SYMBOLS: set<CodePoint> := {0xFF02, 0xFF07}
  const KATAKANA_KEY_SYMBOLS: set<CodePoint> := {0x3046, 0x309B, 0x30F4, 0x30F5, 0x30F6, 0x30FD, 0x30FE}
  const HIRAGANA_KEY_SYMBOLS: set<CodePoint> := {0x3094, 0x3095, 0x3096, 0x309D, 0x309E}

  lemma QuotesSeparateKeys()
    ensures StrTr.SeparatesKeys(HANKAKU_QUOTES, QUOTE_KEY_SYMBOLS)
  {
  }

  lemma KatakanaHiraganaSeparatesKeys()
    ensures StrTr.SeparatesKeys(KATAKANA_HIRAGANA, KATAKANA_KEY_SYMBOLS)
  {
  }

  lemma HiraganaKatakanaSeparatesKeys()
    ensures StrTr.SeparatesKeys(HIRAGANA_KATAKANA, HIRAGANA_KEY_SYMBOLS)
  {
  }

  /** hankaku: mb_convert_kana 'as', then the quote fix-ups; no quote key remains. */
  function Hankaku(u: UnicodeData, t: Text): (r: Text)
    ensures StrTr.KeyFree(r, HANKAKU_QUOTES)
  {
    var s := u.convertKana(t, "as");
    QuotesSeparateKeys();
    StrTr.NoKeyRemains(s, HANKAKU_QUOTES, QUOTE_KEY_SYMBOLS);
    StrTr.StrTr(s, HANKAKU_QUOTES)
  }

  /** hiragana: mb_convert_kana 'cHV', then KATAKANA_HIRAGANA; no key of it remains. */
  function Hiragana(u: UnicodeData, t: Text): (r: Text)
    ensures StrTr.KeyFree(r, KATAKANA_HIRAGANA)
  {
    var s := u.convertKana(t, "cHV");
    KatakanaHiraganaSeparatesKeys();
    StrTr.NoKeyRemains(s, KATAKANA_HIRAGANA, KATAKANA_KEY_SYMBOLS);
    StrTr.StrTr(s, KATAKANA_HIRAGANA)
  }

  /** katakana: mb_convert_kana 'CKV', then HIRAGANA_KATAKANA; no key of it remains. */
  function Katakana(u: UnicodeData, t: Text): (r: Text)
    ensures StrTr.KeyFree(r, HIRAGANA_KATAKANA)
  {
    var s := u.convertKana(t, "CKV");
    HiraganaKatakanaSeparatesKeys();
    StrTr.NoKeyRemains(s, HIRAGANA_KATAKANA, HIRAGANA_KEY_SYMBOLS);
    StrTr.StrTr(s, HIRAGANA_KATAKANA)
  }

  /** The quote pass of hankaku maps U+FF02 to '"' and U+FF07 to "'" and touches nothing else. */
  lemma HankakuQuotePass(s: Text)
    ensures var r := StrTr.StrTr(s, HANKAKU_QUOTES);
      && |r| == |s|
      && forall i :: 0 <= i < |s| ==>
           r[i] == if s[i] == 0xFF02 then 0x22 else if s[i] == 0xFF07 then 0x27 else s[i]
  {
    StrTr.SingleSymbolKeys(s, HANKAKU_QUOTES);
    QuoteCharwise(s);
  }

  lemma {:induction false} QuoteCharwise(s: Text)
    ensures var r := StrTr.Charwise(s, HANKAKU_QUOTES);
      && |r| == |s|
      && forall i :: 0 <= i < |s| ==>
           r[i] == if s[i] == 0xFF02 then 0x22 else if s[i] == 0xFF07 then 0x27 else s[i]
    decreases |s|
  {
    if s != [] {
      QuoteCharwise(s[1..]);
      var r := StrTr.Charwise(s, HANKAKU_QUOTES);
      var rest := StrTr.Charwise(s[1..], HANKAKU_QUOTES);
      assert |r| == |s| && r[0] == (if s[0] == 0xFF02 then 0x22 else if s[0] == 0xFF07 then 0x27 else s[0]);
      assert forall i :: 1 <= i < |s| ==> r[i] == rest[i - 1];
    }
  }

  /**
   * The two-code-point key う゛ is matched as a whole, before any shorter key is
   * tried, and what it is replaced by is not scanned again.
   */
  lemma VoicedUMatchedWhole(s: Text)
    ensures StrTr.StrTr([0x3046, 0x309B] + s, KATAKANA_HIRAGANA) == [0x3094] + StrTr.StrTr(s, KATAKANA_HIRAGANA)
  {
    var t := [0x3046, 0x309B] + s;
    assert t[..2] == [0x3046, 0x309B];
    forall n | 2 < n <= |t| ensures t[..n] !in KATAKANA_HIRAGANA {
      assert |t[..n]| == n;
    }
    StrTr.LongestKeyWins(t, KATAKANA_HIRAGANA, [0x3046, 0x309B]);
    assert t[2..] == s;
  }

  /**
   * HIRAGANA_KATAKANA is exactly the inverse of the one-code-point entries of
   * KATAKANA_HIRAGANA.
   */
  lemma KanaTablesInverse()
    ensures forall k :: k in KATAKANA_HIRAGANA && |k| == 1 ==>
              KATAKANA_HIRAGANA[k] in HIRAGANA_KATAKANA && HIRAGANA_KATAKANA[KATAKANA_HIRAGANA[k]] == k
    ensures forall v :: v in HIRAGANA_KATAKANA ==>
              HIRAGANA_KATAKANA[v] in KATAKANA_HIRAGANA && |HIRAGANA_KATAKANA[v]| == 1
              && KATAKANA_HIRAGANA[HIRAGANA_KATAKANA[v]] == v
  {
  }
}
