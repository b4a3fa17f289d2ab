/**
 * The byte side of ExtractKeywords: the table from code-point positions to
 * byte offsets, and the match built for a reported code-point span.
 *
 * Go's `[]rune(s)` turns each ill-formed byte into U+FFFD and moves on by
 * one byte, while `utf8.RuneLen(U+FFFD)` is 3. The table as the code writes
 * it (sums of RuneLen) therefore drifts past the bytes on ill-formed text;
 * ByteOffsetsAsWritten models it and OffsetsOverrun shows the drift. The
 * table the rest of the model uses, ByteOffsets, records where the decoder
 * actually started each code point; on well-formed text the two agree
 * (Utf8.OffsetWidth).
 */
module Extraction {
  import opened Utf8
  import opened Trie
  import opened AhoCorasick
  import opened Scanning

  /**
   * The byte offsets table as keywordprocessor.go fills it: entry `i + 1`
   * is entry `i` plus the RuneLen of code point `i`.
   */
  method ByteOffsetsAsWritten(runes: seq<int>) returns (offsets: array<int>)
    requires AllScalars(runes)
    ensures fresh(offsets) && offsets.Length == |runes| + 1
    ensures forall k | 0 <= k <= |runes| :: offsets[k] == Width(runes[..k])
  {
    offsets := new int[|runes| + 1];
    offsets[0] := 0;
    for i := 0 to |runes|
      invariant forall k | 0 <= k <= i :: offsets[k] == Width(runes[..k])
    {
      WidthStep(runes, i);
      offsets[i + 1] := offsets[i] + RuneLen(runes[i]);
    }
  }

  /** The text 0xFF 'a' 'b' 'c': one ill-formed byte, then three ASCII letters. */
  const Garbled: seq<byte> := [0xFF, 0x61, 0x62, 0x63]

  lemma GarbledDecode()
    ensures Decode(Garbled) == [RuneError, 0x61, 0x62, 0x63]
  {
    var b := Garbled;
    assert DecodeRune(b[3..]) == Step(0x63, 1, true);
    assert DecodeRune(b[2..]) == Step(0x62, 1, true);
    assert DecodeRune(b[1..]) == Step(0x61, 1, true);
    assert DecodeRune(b) == Step(RuneError, 1, false);
    assert DecodeFrom(b, 4) == [];
    assert DecodeFrom(b, 3) == [0x63];
    assert DecodeFrom(b, 2) == [0x62, 0x63];
  }

  lemma GarbledOffsets()
    ensures Offset(Garbled, 1) == 1 && Offset(Garbled, 4) == 4
  {
    var b := Garbled;
    assert DecodeRune(b[3..]).size == 1;
    assert DecodeRune(b[2..]).size == 1;
    assert DecodeRune(b[1..]).size == 1;
    assert DecodeRune(b).size == 1;
    assert OffsetFrom(b, 3, 1) == 4;
    assert OffsetFrom(b, 2, 2) == 4;
  }

  /**
   * On the text Garbled, with the keyword "abc", the span (1, 4) is an
   * occurrence, but the table as written puts its end at byte 6 of a 4-byte
   * text, so slicing the text there is out of range; the decoder's offsets
   * put it at bytes 1 to 4.
   */
  lemma OffsetsOverrun()
    ensures Occurs(true, {[0x61, 0x62, 0x63]}, Decode(Garbled), 1, 4)
    ensures Width(Decode(Garbled)[..1]) == 3 && Width(Decode(Garbled)[..4]) == 6 > |Garbled|
    ensures Offset(Garbled, 1) == 1 && Offset(Garbled, 4) == 4
  {
    GarbledDecode();
    GarbledOffsets();
    var rs := Decode(Garbled);
    assert rs[1..4] == [0x61, 0x62, 0x63];
    assert FoldSeq(true, rs[1..4]) == [0x61, 0x62, 0x63];
    assert rs[..4] == rs;
    assert Width(rs[3..]) == 1;
    assert Width(rs[2..]) == 2;
    assert Width(rs[1..]) == 3;
  }

  /**
   * The byte offsets table with each step as wide as the decoder consumed:
   * entry `k` is where code point `k` of the text starts, and the last entry
   * is the length of the text.
   */
  method ByteOffsets(sentence: seq<byte>, n: nat) returns (offsets: array<int>)
    requires n == |Decode(sentence)|
    ensures fresh(offsets) && offsets.Length == n + 1
    ensures forall k | 0 <= k <= n :: offsets[k] == Offset(sentence, k)
  {
    offsets := new int[n + 1];
    offsets[0] := 0;
    for i := 0 to n
      invariant forall k | 0 <= k <= i :: offsets[k] == Offset(sentence, k)
    {
      OffsetStep(sentence, i);
      offsets[i + 1] := offsets[i] + DecodeRune(sentence[offsets[i]..]).size;
    }
  }

  /**
   * The match ExtractKeywords records for the code-point span [s, e): its
   * byte span, and the bytes there, which decode to exactly the code points
   * of the span.
   */
  function MatchAt(sentence: seq<byte>, s: nat, e: nat): (m: Match)
    requires s <= e <= |Decode(sentence)|
    ensures m.start == Offset(sentence, s) && m.end == Offset(sentence, e)
    ensures 0 <= m.start <= m.end <= |sentence| && m.text == sentence[m.start..m.end]
    ensures Decode(m.text) == Decode(sentence)[s..e]
    ensures s < e ==> m.start < m.end
  {
    DecodeSlice(sentence, s, e);
    if s < e then OffsetMonotone(sentence, s, e); MatchOf(sentence, Offset(sentence, s), Offset(sentence, e))
    else MatchOf(sentence, Offset(sentence, s), Offset(sentence, e))
  }

  function MatchOf(sentence: seq<byte>, x: nat, y: nat): (m: Match)
    requires x <= y <= |sentence|
    ensures m.start == x && m.end == y && m.text == sentence[x..y]
  {
    Match(sentence[x..y], x, y)
  }

  /** Matches come in order of their end byte, and none twice. */
  predicate MatchesOrdered(matches: seq<Match>) {
    forall k1, k2 | 0 <= k1 < k2 < |matches| :: matches[k1].end <= matches[k2].end && matches[k1] != matches[k2]
  }

  /**
   * The matches of a complete scan, taken span by span: each one is a
   * folded keyword sliced out of the text, every occurrence has its match,
   * and they come in order, once each.
   */
  lemma Extracted(caseSensitive: bool, keywords: set<seq<int>>, sentence: seq<byte>, reported: seq<(int, int)>, matches: seq<Match>)
    requires |matches| == |reported|
    requires forall j | 0 <= j < |reported| ::
      && Occurs(caseSensitive, keywords, Decode(sentence), reported[j].0, reported[j].1)
      && matches[j] == MatchAt(sentence, reported[j].0, reported[j].1)
    requires Ordered(reported)
    requires forall s, e | Occurs(caseSensitive, keywords, Decode(sentence), s, e) :: (s, e) in reported
    ensures forall m | m in matches :: 0 <= m.start < m.end <= |sentence| && m.text == sentence[m.start..m.end]
    ensures forall m | m in matches :: FoldSeq(caseSensitive, Decode(m.text)) in keywords
    ensures forall s, e | Occurs(caseSensitive, keywords, Decode(sentence), s, e) :: MatchAt(sentence, s, e) in matches
    ensures MatchesOrdered(matches)
    ensures |matches| == |Occurrences(caseSensitive, keywords, Decode(sentence))|
  {
    var rs := Decode(sentence);
    forall p | p in reported
      ensures Occurs(caseSensitive, keywords, rs, p.0, p.1)
    {
      var j :| 0 <= j < |reported| && reported[j] == p;
    }
    SpansCount(caseSensitive, keywords, rs, reported);
    forall m | m in matches
      ensures 0 <= m.start < m.end <= |sentence| && m.text == sentence[m.start..m.end]
      ensures FoldSeq(caseSensitive, Decode(m.text)) in keywords
    {
      var j :| 0 <= j < |matches| && matches[j] == m;
    }
    forall s, e | Occurs(caseSensitive, keywords, rs, s, e)
      ensures MatchAt(sentence, s, e) in matches
    {
      assert (s, e) in reported;
      var j :| 0 <= j < |reported| && reported[j] == (s, e);
      assert matches[j] == MatchAt(sentence, s, e);
    }
    SpansOrdered(sentence, reported, matches);
  }

  /** Distinct code-point spans, ordered by end, give distinct matches ordered by end byte. */
  lemma SpansOrdered(sentence: seq<byte>, reported: seq<(int, int)>, matches: seq<Match>)
    requires |matches| == |reported|
    requires forall j | 0 <= j < |reported| ::
      && 0 <= reported[j].0 <= reported[j].1 <= |Decode(sentence)|
      && matches[j] == MatchAt(sentence, reported[j].0, reported[j].1)
    requires Ordered(reported)
    ensures MatchesOrdered(matches)
  {
    forall k1, k2 | 0 <= k1 < k2 < |matches|
      ensures matches[k1].end <= matches[k2].end && matches[k1] != matches[k2]
    {
      var (s1, e1) := reported[k1];
      var (s2, e2) := reported[k2];
      if e1 < e2 {
        OffsetMonotone(sentence, e1, e2);
      } else if s1 < s2 {
        OffsetMonotone(sentence, s1, s2);
      } else if s2 < s1 {
        OffsetMonotone(sentence, s2, s1);
      }
    }
  }

  /**
   * The matches for the reported spans, one by one and in order: each is the
   * span's byte offsets looked up in the table, and the bytes between them.
   */
  method Collect(sentence: seq<byte>, offsets: array<int>, reported: seq<(int, int)>) returns (matches: seq<Match>)
    requires offsets.Length == |Decode(sentence)| + 1
    requires forall k | 0 <= k < offsets.Length :: offsets[k] == Offset(sentence, k)
    requires forall j | 0 <= j < |reported| :: 0 <= reported[j].0 <= reported[j].1 <= |Decode(sentence)|
    ensures |matches| == |reported|
    ensures forall j | 0 <= j < |reported| :: matches[j] == MatchAt(sentence, reported[j].0, reported[j].1)
  {
    matches := [];
    for k := 0 to |reported|
      invariant |matches| == k
      invariant forall j | 0 <= j < k :: matches[j] == MatchAt(sentence, reported[j].0, reported[j].1)
    {
      var (start, end) := reported[k];
      DecodeSlice(sentence, start, end);
      matches := matches + [Match(sentence[offsets[start]..offsets[end]], offsets[start], offsets[end])];
    }
  }
}
