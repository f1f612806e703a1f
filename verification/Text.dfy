/** Whitespace tokens and the Jaccard similarity used by clustering and evolution. */
module Text {
  /** Unicode White_Space, as the host language's `char::is_whitespace`. */
  predicate IsWhitespace(c: char) {
    var n := c as int;
    9 <= n <= 13 || n == 0x20 || n == 0x85 || n == 0xA0 || n == 0x1680 || 0x2000 <= n <= 0x200A
    || n == 0x2028 || n == 0x2029 || n == 0x202F || n == 0x205F || n == 0x3000
  }

  function Utf8Len(c: char): nat {
    var n := c as int;
    if n < 0x80 then 1 else if n < 0x800 then 2 else if n < 0x1_0000 then 3 else 4
  }

  function ByteLen(s: string): nat {
    if s == [] then 0 else Utf8Len(s[0]) + ByteLen(s[1..])
  }

  /** Maximal runs of non-whitespace; `cur` is the run being read. */
  function SplitFrom(s: string, cur: string): seq<string> {
    if s == [] then (if cur == [] then [] else [cur])
    else if IsWhitespace(s[0]) then (if cur == [] then [] else [cur]) + SplitFrom(s[1..], [])
    else SplitFrom(s[1..], cur + [s[0]])
  }

  function SplitWhitespace(s: string): seq<string> {
    SplitFrom(s, [])
  }

  /** The tokens that take part in a comparison: longer than two bytes. */
  function Tokens(s: string): set<string> {
    set t | t in SplitWhitespace(s) && ByteLen(t) > 2
  }

  // ---------- What splitting means ----------

  ghost predicate IsWord(w: string) {
    w != [] && forall i :: 0 <= i < |w| ==> !IsWhitespace(w[i])
  }

  lemma {:induction false} SplitRun(w: string, cur: string, rest: string)
    requires (forall i :: 0 <= i < |w| ==> !IsWhitespace(w[i])) && cur + w != []
    requires rest == [] || IsWhitespace(rest[0])
    ensures SplitFrom(w + rest, cur) == [cur + w] + if rest == [] then [] else SplitFrom(rest[1..], [])
    decreases |w|
  {
    hide IsWhitespace;
    if w == [] {
      assert w + rest == rest && cur + w == cur;
    } else {
      assert (w + rest)[1..] == w[1..] + rest && (w + rest)[0] == w[0];
      assert cur + [w[0]] + w[1..] == cur + w;
      SplitRun(w[1..], cur + [w[0]], rest);
    }
  }

  /** A text of one word is that word, and a word before whitespace is the first one. */
  lemma FirstWord(w: string, space: char, rest: string)
    requires IsWord(w) && IsWhitespace(space)
    ensures SplitWhitespace(w) == [w]
    ensures SplitWhitespace(w + [space] + rest) == [w] + SplitWhitespace(rest)
  {
    hide IsWhitespace;
    SplitRun(w, [], []);
    assert w + [] == w && [] + w == w;
    SplitRun(w, [], [space] + rest);
    assert w + ([space] + rest) == w + [space] + rest && ([space] + rest)[1..] == rest;
  }

  /** Whitespace in front, or nothing at all, adds no word. */
  lemma NoWord(space: char, rest: string)
    requires IsWhitespace(space)
    ensures SplitWhitespace([]) == [] && SplitWhitespace([space] + rest) == SplitWhitespace(rest)
  {
    assert ([space] + rest)[1..] == rest;
  }

  /** Every text is words and whitespace, so the three laws above give the words of any text. */
  lemma {:induction false} WordsAreWords(s: string, cur: string)
    requires forall i :: 0 <= i < |cur| ==> !IsWhitespace(cur[i])
    ensures forall k :: 0 <= k < |SplitFrom(s, cur)| ==> IsWord(SplitFrom(s, cur)[k])
    decreases |s|
  {
    if s != [] {
      if IsWhitespace(s[0]) {
        WordsAreWords(s[1..], []);
      } else {
        WordsAreWords(s[1..], cur + [s[0]]);
      }
    }
  }

  function Jaccard(a: string, b: string): real {
    var ta, tb := Tokens(a), Tokens(b);
    if ta + tb == {} then 0.0 else |ta * tb| as real / |ta + tb| as real
  }

  lemma JaccardSymmetric(a: string, b: string)
    ensures Jaccard(a, b) == Jaccard(b, a)
  {
    assert Tokens(a) + Tokens(b) == Tokens(b) + Tokens(a);
    assert Tokens(a) * Tokens(b) == Tokens(b) * Tokens(a);
  }

  lemma ShareBounds(a: nat, b: nat)
    requires 0 < b && a <= b
    ensures 0.0 <= a as real / b as real <= 1.0
    ensures a as real / b as real == 0.0 <==> a == 0
    ensures a as real / b as real == 1.0 <==> a == b
  {
    var x := a as real / b as real;
    assert x * b as real == a as real;
  }

  /**
   Similarity lies between 0, for texts without a common token, and 1, for texts with the
   same tokens, spelled alike.
   */
  lemma JaccardRange(a: string, b: string)
    ensures 0.0 <= Jaccard(a, b) <= 1.0
    ensures Jaccard(a, b) == 0.0 <==> Tokens(a) !! Tokens(b)
    ensures Jaccard(a, b) == 1.0 <==> Tokens(a) == Tokens(b) && Tokens(a) != {}
  {
    hide Tokens;
    var ta, tb := Tokens(a), Tokens(b);
    if ta + tb != {} {
      var common, all := ta * tb, ta + tb;
      assert all == common + (all - common);
      ShareBounds(|common|, |all|);
      assert |common| == |all| ==> common == all;
      assert common == all <==> ta == tb;
    }
  }

  /**
   Counted: of two texts with m and n tokens, c of them common, the similarity is the share
   that c is of m + n - c, so a threshold is met exactly when c is that share of it or more.
   */
  lemma SimilarityCounted(a: string, b: string, threshold: real)
    ensures var c, m, n := |set t | t in Tokens(a) && t in Tokens(b)|, |Tokens(a)|, |Tokens(b)|;
      && c <= m && c <= n
      && (m + n > 0 ==> m + n - c > 0 && Jaccard(a, b) * (m + n - c) as real == c as real)
      && (m + n == 0 ==> Jaccard(a, b) == 0.0)
      && (m + n > 0 ==> (Jaccard(a, b) >= threshold <==> c as real >= threshold * (m + n - c) as real))
      && (m + n > 0 ==> (Jaccard(a, b) <= threshold <==> c as real <= threshold * (m + n - c) as real))
  {
    hide Tokens, Jaccard;
    var ta, tb := Tokens(a), Tokens(b);
    CommonCount(ta, tb);
    JaccardShare(a, b);
    if |ta| + |tb| > 0 {
      ShareOf(|set t | t in ta && t in tb|, |ta + tb|, threshold);
    }
  }

  lemma CommonCount(a: set<string>, b: set<string>)
    ensures var c := |set t | t in a && t in b|;
      c <= |a| && c <= |b| && |a + b| == |a| + |b| - c && (|a| + |b| == 0 <==> |a + b| == 0)
  {
    var common := set t | t in a && t in b;
    assert common == a * b;
    assert |a + b| == |a| + |b| - |a * b|;
    assert a == common + (a - common) && b == common + (b - common);
  }

  lemma JaccardShare(a: string, b: string)
    ensures var all, c := |Tokens(a) + Tokens(b)|, |set t | t in Tokens(a) && t in Tokens(b)|;
      Jaccard(a, b) == if all == 0 then 0.0 else c as real / all as real
  {
    hide Tokens;
    var ta, tb := Tokens(a), Tokens(b);
    assert (set t | t in ta && t in tb) == ta * tb;
  }

  lemma ShareOf(c: nat, all: nat, threshold: real)
    requires 0 < all
    ensures c as real / all as real * all as real == c as real
    ensures c as real / all as real >= threshold <==> c as real >= threshold * all as real
    ensures c as real / all as real <= threshold <==> c as real <= threshold * all as real
  {
    var x, n := c as real / all as real, all as real;
    assert x * n == c as real;
    ProductOrder(x, threshold, n);
    ProductOrder(threshold, x, n);
  }

  lemma ProductOrder(x: real, y: real, n: real)
    requires n > 0.0
    ensures x >= y <==> x * n >= y * n
  {
    if x >= y {
      assert (x - y) * n >= 0.0;
    } else {
      assert (y - x) * n > 0.0;
    }
  }

  /** The tokens of a text are those of its first word and those of the rest. */
  lemma TokensByWord(w: string, space: char, rest: string)
    requires IsWord(w) && IsWhitespace(space)
    ensures Tokens([]) == {} && Tokens([space] + rest) == Tokens(rest)
    ensures Tokens(w) == if ByteLen(w) > 2 then {w} else {}
    ensures Tokens(w + [space] + rest) == Tokens(w) + Tokens(rest)
  {
    hide SplitWhitespace, IsWhitespace, IsWord;
    FirstWord(w, space, rest);
    NoWord(space, rest);
  }

  /** Lengths add up, and the longer encodings begin at these characters. */
  lemma {:induction false} LengthsAdd(a: string, b: string)
    ensures ByteLen(a + b) == ByteLen(a) + ByteLen(b)
  {
    if a == [] {
      assert a + b == b;
    } else {
      assert (a + b)[1..] == a[1..] + b;
      LengthsAdd(a[1..], b);
    }
  }

  lemma LengthOfOne(c: char)
    ensures 1 <= ByteLen([c]) <= 4
    ensures ByteLen([c]) >= 2 <==> c >= '\U{80}'
    ensures ByteLen([c]) >= 3 <==> c >= '\U{800}'
    ensures ByteLen([c]) == 4 <==> c >= '\U{10000}'
  {
    assert ByteLen([c][1..]) == 0;
  }

  /** The separators, one by one. */
  lemma Separators(c: char)
    ensures IsWhitespace(c) <==> c as int in {
      0x09, 0x0A, 0x0B, 0x0C, 0x0D, 0x20, 0x85, 0xA0, 0x1680, 0x2000, 0x2001, 0x2002, 0x2003, 0x2004, 0x2005, 0x2006,
      0x2007, 0x2008, 0x2009, 0x200A, 0x2028, 0x2029, 0x202F, 0x205F, 0x3000}
  {
  }

  lemma TwoTokens(a: string, b: string)
    requires PlainWord(a) && PlainWord(b) && |a| > 2 && |b| > 2
    ensures Tokens(a + [' '] + b) == {a, b}
  {
    TokensByWord(a, ' ', b);
    OneToken(a);
    OneToken(b);
  }

  /** Two words each, one of them common: one token of three. */
  lemma OneOfThree(a: string, b: string, c: string)
    requires PlainWord(a) && PlainWord(b) && PlainWord(c) && |a| > 2 && |b| > 2 && |c| > 2
    requires a != b && a != c && b != c
    ensures Jaccard(a + [' '] + b, a + [' '] + c) * 3.0 == 1.0
  {
    hide Jaccard, Tokens;
    TwoTokens(a, b);
    TwoTokens(a, c);
    var x, y := a + [' '] + b, a + [' '] + c;
    assert (set t | t in Tokens(x) && t in Tokens(y)) == {a};
    SimilarityCounted(x, y, 0.0);
  }

  /** One word, in two spellings. */
  lemma CaseMatters()
    ensures Jaccard("Rust", "rust") == 0.0
    ensures Jaccard("rust", "rust") == 1.0
  {
    OneToken("Rust");
    OneToken("rust");
    assert "Rust"[0] != "rust"[0];
    JaccardRange("Rust", "rust");
    JaccardRange("rust", "rust");
  }

  ghost predicate PlainWord(s: string) {
    forall i :: 0 <= i < |s| ==> 'A' <= s[i] <= 'z'
  }

  lemma {:induction false} SplitPlain(s: string, cur: string)
    requires PlainWord(s) && cur + s != []
    ensures SplitFrom(s, cur) == [cur + s]
    decreases |s|
  {
    if s == [] {
      assert cur + s == cur;
    } else {
      SplitPlain(s[1..], cur + [s[0]]);
      assert cur + [s[0]] + s[1..] == cur + s;
    }
  }

  lemma {:induction false} PlainLength(s: string)
    requires PlainWord(s)
    ensures ByteLen(s) == |s|
  {
    if s != [] {
      PlainLength(s[1..]);
    }
  }

  lemma OneToken(s: string)
    requires PlainWord(s) && |s| > 2
    ensures Tokens(s) == {s}
  {
    SplitPlain(s, []);
    assert [] + s == s;
    PlainLength(s);
    assert SplitWhitespace(s) == [s];
  }
}
