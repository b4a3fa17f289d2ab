/**
 * The occurrences the keyword processor reports on a few small texts: by
 * ExtractKeywords' contract, its matches are exactly these spans, so their
 * number is the size of these sets.
 */
module Examples {
  import opened Utf8
  import opened AhoCorasick
  import opened Scanning
  import opened Extraction
  import opened Trie
  import opened Flashtext

  /** The code points of an ASCII string. */
  function Codes(s: string): (r: seq<int>)
    ensures |r| == |s| && forall i | 0 <= i < |s| :: r[i] == s[i] as int
  {
    seq(|s|, i requires 0 <= i < |s| => s[i] as int)
  }

  /** The bytes of an ASCII string: one byte per character, each its own code point. */
  function Bytes(s: string): (b: seq<byte>)
    requires forall i | 0 <= i < |s| :: s[i] as int < 128
    ensures Decode(b) == Codes(s) && (|b| == 0 <==> |s| == 0)
  {
    var b := seq(|s|, i requires 0 <= i < |s| => s[i] as int as byte);
    DecodeAscii(b, 0);
    assert b[0..] == b;
    b
  }

  /** Below 0x80 every byte decodes to itself. */
  lemma {:induction false} DecodeAscii(b: seq<byte>, p: nat)
    requires p <= |b| && forall i | p <= i < |b| :: b[i] < 0x80
    ensures DecodeFrom(b, p) == b[p..]
    decreases |b| - p
  {
    if p < |b| {
      DecodeAscii(b, p + 1);
    }
  }

  /** Overlapping and nested keywords: "he", "she" and "hers" occur four times in "hershey". */
  lemma Hershey()
    ensures Occurrences(false, {Codes("he"), Codes("she"), Codes("hers")}, Codes("hershey"))
      == {(0, 2), (0, 4), (3, 6), (4, 6)}
    ensures |Occurrences(false, {Codes("he"), Codes("she"), Codes("hers")}, Codes("hershey"))| == 4
  {
    var t := Codes("hershey");
    var ks := {Codes("he"), Codes("she"), Codes("hers")};
    var occ := Occurrences(false, ks, t);
    forall s, e | 0 <= s < e <= |t| && FoldSeq(false, t[s..e]) in ks
      ensures (s, e) in {(0, 2), (0, 4), (3, 6), (4, 6)}
    {
      var f := FoldSeq(false, t[s..e]);
      assert f[0] == t[s];
    }
    assert FoldSeq(false, t[0..2]) == Codes("he");
    assert FoldSeq(false, t[0..4]) == Codes("hers");
    assert FoldSeq(false, t[3..6]) == Codes("she");
    assert FoldSeq(false, t[4..6]) == Codes("he");
    assert occ == {(0, 2), (0, 4), (3, 6), (4, 6)};
  }

  /** The folded `n` code points of `t` from `s` on: what a keyword of length `n` starting at `s` must equal. */
  function Window(caseSensitive: bool, t: seq<int>, s: nat, n: nat): seq<int>
    requires s + n <= |t|
  {
    FoldSeq(caseSensitive, t[s..s + n])
  }

  /** A keyword found at `s0` and at no other start occurs exactly there. */
  lemma OnlyAt(caseSensitive: bool, k: seq<int>, t: seq<int>, s0: nat)
    requires 0 < |k| && s0 + |k| <= |t| && Window(caseSensitive, t, s0, |k|) == k
    requires forall s: nat | s + |k| <= |t| && s != s0 :: Window(caseSensitive, t, s, |k|) != k
    ensures Occurrences(caseSensitive, {k}, t) == {(s0, s0 + |k|)}
  {
    forall s, e | 0 <= s < e <= |t| && FoldSeq(caseSensitive, t[s..e]) == k
      ensures s == s0 && e == s0 + |k|
    {
      assert |FoldSeq(caseSensitive, t[s..e])| == e - s;
      assert Window(caseSensitive, t, s, |k|) == k;
    }
  }

  /** The test's mixed-case sentence: case-insensitive "apple" is found once in "I have an aPpLe". */
  lemma AppleMixedCase()
    ensures Occurrences(false, {Codes("apple")}, Codes("I have an aPpLe")) == {(10, 15)}
  {
    AppleAnyCase("aPpLe");
    assert "I have an " + "aPpLe" == "I have an aPpLe";
  }

  /** Case-insensitive "apple" does not occur in "no fruit here", which has no letter a. */
  lemma NoFruit()
    ensures Occurrences(false, {Codes("apple")}, Codes("no fruit here")) == {}
  {
    var t := Codes("no fruit here");
    forall s, e | 0 <= s < e <= |t|
      ensures FoldSeq(false, t[s..e]) != Codes("apple")
    {
      assert FoldSeq(false, t[s..e])[0] == Fold(false, t[s]);
    }
  }

  /** "apple", in any case, at the end of "I have an ": found there and only there. */
  lemma AppleIn(t: seq<int>)
    requires |t| == 15 && t[..10] == Codes("I have an ") && FoldSeq(false, t[10..]) == Codes("apple")
    ensures Occurrences(false, {Codes("apple")}, t) == {(10, 15)}
  {
    forall s: nat | s + 5 <= |t| && s != 10
      ensures Window(false, t, s, 5) != Codes("apple")
    {
      var f := FoldSeq(false, t[s..s + 5]);
      if s < 10 {
        assert t[s] == t[..10][s] && f[0] == Fold(false, t[s]);
        if s < 9 {
          assert t[s + 1] == t[..10][s + 1] && f[1] == Fold(false, t[s + 1]);
        }
      }
    }
    assert t[10..15] == t[10..];
    assert Window(false, t, 10, 5) == Codes("apple");
    OnlyAt(false, Codes("apple"), t, 10);
  }

  /**
   * Case-insensitive "apple" after "I have an ", whatever its spelling (the
   * test's "apple", "Apple", "APPLE" and "aPpLe" among them): found once, at
   * the end.
   */
  lemma AppleAnyCase(w: string)
    requires |w| == 5 && FoldSeq(false, Codes(w)) == Codes("apple")
    ensures Occurrences(false, {Codes("apple")}, Codes("I have an " + w)) == {(10, 15)}
  {
    var t := Codes("I have an " + w);
    assert t[..10] == Codes("I have an ");
    assert t[10..] == Codes(w);
    AppleIn(t);
  }

  /** Case-sensitive "Apple" in the sentences of the test: found only where it is spelled exactly so. */
  lemma AppleExactCase()
    ensures Occurrences(true, {Codes("Apple")}, Codes("I have an Apple")) == {(10, 15)}
    ensures Occurrences(true, {Codes("Apple")}, Codes("I have an apple")) == {}
    ensures Occurrences(true, {Codes("Apple")}, Codes("I have an APPLE")) == {}
  {
    var t := Codes("I have an Apple");
    forall s: nat | s + 5 <= |t| && s != 10
      ensures Window(true, t, s, 5) != Codes("Apple")
    {
      assert FoldSeq(true, t[s..s + 5])[0] == t[s];
    }
    assert Window(true, t, 10, 5) == Codes("Apple");
    OnlyAt(true, Codes("Apple"), t, 10);
    NoCapitalA(Codes("I have an apple"));
    NoCapitalA(Codes("I have an APPLE"));
  }

  /** A case-sensitive "Apple" cannot occur in a text whose only capital A, if any, is followed by a capital P. */
  lemma NoCapitalA(t: seq<int>)
    requires forall i | 0 <= i < |t| - 1 && t[i] == 'A' as int :: t[i + 1] == 'P' as int
    ensures Occurrences(true, {Codes("Apple")}, t) == {}
  {
    forall s, e | 0 <= s < e <= |t|
      ensures FoldSeq(true, t[s..e]) != Codes("Apple")
    {
      var f := FoldSeq(true, t[s..e]);
      if e - s == 5 {
        assert f[0] == t[s] && f[1] == t[s + 1];
      }
    }
  }


  /** The keyword of the Chinese test, 毛泽东, as code points. */
  function Mao(): (k: seq<int>)
    ensures |k| == 3 && AllScalars(k) && FoldSeq(false, k) == k
  {
    [0x6BDB, 0x6CFD, 0x4E1C]
  }

  /** The sentence of the Chinese test: ASCII letters around the keyword. */
  function ChineseText(): (t: seq<int>)
    ensures |t| == 21 && t[12..15] == Mao()
  {
    Codes("ahisHershare") + Mao() + Codes("dsadsa")
  }

  /** A keyword outside ASCII is found like any other: 毛泽东 occurs once, as code points 12 to 15. */
  lemma Chinese()
    ensures Occurrences(false, {Mao()}, ChineseText()) == {(12, 15)}
  {
    var t := ChineseText();
    forall s: nat | s + 3 <= |t| && s != 12
      ensures Window(false, t, s, 3) != Mao()
    {
      assert FoldSeq(false, t[s..s + 3])[0] == Fold(false, t[s]);
    }
    OnlyAt(false, Mao(), t, 12);
  }

  /** ASCII code points take one byte each. */
  lemma {:induction false} WidthAscii(rs: seq<int>)
    requires forall i | 0 <= i < |rs| :: 0 <= rs[i] < 0x80
    ensures AllScalars(rs) && Width(rs) == |rs|
  {
    if rs != [] {
      WidthAscii(rs[1..]);
    }
  }

  /**
   * In the UTF-8 encoding of `a + k + c`, the match for the code points of
   * `k` covers the encoded widths of `a` and `k`, and its bytes decode to `k`.
   */
  lemma MatchSpan(a: seq<int>, k: seq<int>, c: seq<int>)
    requires AllScalars(a) && AllScalars(k) && AllScalars(c)
    ensures AllScalars(a + k + c)
    ensures var b := Encode(a + k + c);
      |Decode(b)| == |a + k + c| &&
      var m := MatchAt(b, |a|, |a| + |k|);
      m.start == Width(a) && m.end == Width(a) + Width(k) && Decode(m.text) == k
  {
    WidthAppend(a, k);
    WidthAppend(a + k, c);
    var t := a + k + c;
    var b := Encode(t);
    DecodeEncode(t);
    assert t[..|a|] == a && t[..|a| + |k|] == a + k && t[|a|..|a| + |k|] == k;
    OffsetWidth(b, |a|);
    OffsetWidth(b, |a| + |k|);
  }

  /**
   * The byte span of the Chinese match: in the UTF-8 sentence, the match for
   * code points [12, 15) runs from byte 12 to byte 21, and its bytes decode to
   * the keyword.
   */
  lemma ChineseBytes()
    ensures AllScalars(ChineseText())
    ensures var b := Encode(ChineseText());
      |Decode(b)| == 21 &&
      var m := MatchAt(b, 12, 15);
      m.start == 12 && m.end == 21 && m.text == b[12..21] && Decode(m.text) == Mao()
  {
    ChineseWidths();
    MatchSpan(Codes("ahisHershare"), Mao(), Codes("dsadsa"));
  }

  /** The parts of the Chinese sentence take 12, 9 and 6 bytes. */
  lemma ChineseWidths()
    ensures AllScalars(Codes("ahisHershare")) && Width(Codes("ahisHershare")) == 12
    ensures AllScalars(Codes("dsadsa")) && Width(Codes("dsadsa")) == 6
    ensures Width(Mao()) == 9
  {
    WidthAscii(Codes("ahisHershare"));
    WidthAscii(Codes("dsadsa"));
  }

  /** Two keywords, three occurrences: "hello" twice and "world" once in "hello world hello". */
  lemma HelloWorld()
    ensures Occurrences(false, {Codes("hello"), Codes("world")}, Codes("hello world hello")) == {(0, 5), (6, 11), (12, 17)}
    ensures |Occurrences(false, {Codes("hello"), Codes("world")}, Codes("hello world hello"))| == 3
  {
    var t := Codes("hello world hello");
    var ks := {Codes("hello"), Codes("world")};
    forall s, e | 0 <= s < e <= |t| && FoldSeq(false, t[s..e]) in ks
      ensures (s, e) in {(0, 5), (6, 11), (12, 17)}
    {
      var f := FoldSeq(false, t[s..e]);
      assert f[0] == Fold(false, t[s]);
    }
    assert FoldSeq(false, t[0..5]) == Codes("hello");
    assert FoldSeq(false, t[6..11]) == Codes("world");
    assert FoldSeq(false, t[12..17]) == Codes("hello");
  }

  /** Nothing to find: a keyword in the empty text, or no keyword at all in "test text". */
  lemma NothingToFind(caseSensitive: bool)
    ensures Occurrences(caseSensitive, {Codes("test")}, []) == {}
    ensures AddedAll(caseSensitive, []) == {}
    ensures Occurrences(caseSensitive, AddedAll(caseSensitive, []), Codes("test text")) == {}
  {
  }

  /** A whole-text match and a miss: "hello" occurs once in "hello" and never in "world". */
  lemma Hello()
    ensures Occurrences(false, {Codes("hello")}, Codes("hello")) == {(0, 5)}
    ensures Occurrences(false, {Codes("hello")}, Codes("world")) == {}
  {
    var t := Codes("hello");
    assert Window(false, t, 0, 5) == Codes("hello");
    OnlyAt(false, Codes("hello"), t, 0);
    var u := Codes("world");
    forall s, e | 0 <= s < e <= |u|
      ensures FoldSeq(false, u[s..e]) != Codes("hello")
    {
      assert FoldSeq(false, u[s..e])[0] == Fold(false, u[s]);
    }
  }

  /** Every occurrence is found, not only the first: "a" occurs twice in "a b c a". */
  lemma Repeated()
    ensures Occurrences(false, {Codes("a")}, Codes("a b c a")) == {(0, 1), (6, 7)}
  {
    var t := Codes("a b c a");
    forall s, e | 0 <= s < e <= |t| && FoldSeq(false, t[s..e]) in {Codes("a")}
      ensures (s, e) in {(0, 1), (6, 7)}
    {
      var f := FoldSeq(false, t[s..e]);
      assert f[0] == Fold(false, t[s]);
    }
    assert FoldSeq(false, t[0..1]) == Codes("a");
    assert FoldSeq(false, t[6..7]) == Codes("a");
  }

  /** The empty keyword adds nothing, so it is never found: "" gives no match in "test". */
  lemma EmptyKeyword(caseSensitive: bool)
    ensures Added(caseSensitive, []) == {}
    ensures Occurrences(caseSensitive, Added(caseSensitive, []), Codes("test")) == {}
  {
  }

  /** A list of three keywords adds what each of them adds. */
  lemma AddedThree(caseSensitive: bool, a: seq<byte>, b: seq<byte>, c: seq<byte>)
    ensures AddedAll(caseSensitive, [a, b, c]) == Added(caseSensitive, a) + Added(caseSensitive, b) + Added(caseSensitive, c)
  {
    var list: seq<seq<byte>> := [a, b, c];
    assert |list[..1][..0]| == 0 && list[..2][..1] == list[..1] && list[..3][..2] == list[..2] && list[..3] == list;
    assert AddedAll(caseSensitive, list[..1]) == Added(caseSensitive, a);
    assert AddedAll(caseSensitive, list[..2]) == Added(caseSensitive, a) + Added(caseSensitive, b);
  }

  /** The keywords "he", "she" and "hers", loaded case-insensitively, are their own code points. */
  lemma HersheyKeywords()
    ensures Added(false, Bytes("he")) + Added(false, Bytes("she")) + Added(false, Bytes("hers"))
      == {Codes("he"), Codes("she"), Codes("hers")}
  {
    assert FoldSeq(false, Codes("he")) == Codes("he");
    assert FoldSeq(false, Codes("she")) == Codes("she");
    assert FoldSeq(false, Codes("hers")) == Codes("hers");
  }

  /** The keyword list of the hershey example, as bytes. */
  function HersheyList(): (list: seq<seq<byte>>)
    ensures AddedAll(false, list) == {Codes("he"), Codes("she"), Codes("hers")}
  {
    AddedThree(false, Bytes("he"), Bytes("she"), Bytes("hers"));
    HersheyKeywords();
    [Bytes("he"), Bytes("she"), Bytes("hers")]
  }

  /** The text of the hershey example, as bytes. */
  function HersheyText(): (text: seq<byte>)
    ensures Decode(text) == Codes("hershey")
  {
    Bytes("hershey")
  }

  /** The number of occurrences the processor of the hershey example reports. */
  lemma HersheyCount(keywords: set<seq<int>>, text: seq<byte>)
    requires keywords == {} + AddedAll(false, HersheyList()) && text == HersheyText()
    ensures |Occurrences(false, keywords, Decode(text))| == 4
  {
    assert keywords == {Codes("he"), Codes("she"), Codes("hers")};
    Hershey();
  }

  /**
   * The hershey example end to end: a case-insensitive processor loaded with
   * "he", "she" and "hers", built, and run on "hershey" reports four matches.
   */
  method HersheyMatches() returns (matches: seq<Match>)
    ensures |matches| == 4
  {
    var kp := new KeywordProcessor(false);
    kp := kp.AddKeywordsFromList(HersheyList());
    kp.Build();
    matches := kp.ExtractKeywords(HersheyText());
    HersheyCount(kp.keywords, HersheyText());
  }
}
