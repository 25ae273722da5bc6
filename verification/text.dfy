/** Character and string helpers with the meaning of the Python string
    methods the server uses: `lower`, `rstrip("/")`, `split("/")[-1]`,
    `isalnum`, `startswith` and the no-argument `split`. Letters and digits
    are the ASCII ones; `str.split()` uses Python's full whitespace set. */
module Text {

  predicate IsLower(c: char) { 'a' <= c <= 'z' }

  predicate IsUpper(c: char) { 'A' <= c <= 'Z' }

  predicate IsDigit(c: char) { '0' <= c <= '9' }

  predicate IsAlnumChar(c: char) { IsLower(c) || IsUpper(c) || IsDigit(c) }

  predicate AllLower(s: string) { forall i :: 0 <= i < |s| ==> IsLower(s[i]) }

  /** `str.isalnum()`: true of a non-empty string of letters and digits. */
  predicate IsAlnum(s: string) { |s| > 0 && forall i :: 0 <= i < |s| ==> IsAlnumChar(s[i]) }

  function LowerChar(c: char): (r: char)
    ensures !IsUpper(r)
    ensures IsUpper(c) || r == c
  {
    if IsUpper(c) then (c as int + 32) as char else c
  }

  /** `str.lower()` */
  function Lower(s: string): string
  {
    seq(|s|, i requires 0 <= i < |s| => LowerChar(s[i]))
  }

  /** Lower-casing twice is lower-casing once. */
  lemma {:induction false} LowerIdempotent(s: string)
    ensures Lower(Lower(s)) == Lower(s)
  {
  }

  /** Lower-casing leaves '/' alone and creates no '/' of its own. */
  lemma {:induction false} LowerKeepsSlashes(s: string)
    ensures forall i :: 0 <= i < |s| ==> (Lower(s)[i] == '/' <==> s[i] == '/')
  {
  }

  /** `str.rstrip("/")`: the longest prefix that does not end in '/',
      such that only slashes were cut off. */
  function TrimTrailingSlashes(s: string): (r: string)
    ensures r <= s
    ensures |r| == 0 || r[|r| - 1] != '/'
    ensures forall i :: |r| <= i < |s| ==> s[i] == '/'
    decreases |s|
  {
    if |s| > 0 && s[|s| - 1] == '/' then TrimTrailingSlashes(s[..|s| - 1]) else s
  }

  /** `s.split("/")[-1]`: the part after the last '/', or all of `s`. */
  function LastSegment(s: string): (r: string)
    ensures '/' !in r
    ensures |r| <= |s| && s[|s| - |r|..] == r
    ensures |r| == |s| || s[|s| - |r| - 1] == '/'
    decreases |s|
  {
    if |s| == 0 || s[|s| - 1] == '/' then "" else LastSegment(s[..|s| - 1]) + [s[|s| - 1]]
  }

  /** The characters Python's `str.isspace` accepts, which `str.split()`
      with no argument splits on. */
  predicate IsSpace(c: char)
  {
    var n := c as int;
    || 9 <= n <= 13 || 28 <= n <= 32 || n == 0x85 || n == 0xA0 || n == 0x1680
    || 0x2000 <= n <= 0x200A || n == 0x2028 || n == 0x2029 || n == 0x202F
    || n == 0x205F || n == 0x3000
  }

  /** A non-empty run of non-space characters. */
  predicate IsWord(w: string) { |w| > 0 && forall i :: 0 <= i < |w| ==> !IsSpace(w[i]) }

  /** Length of the leading non-space run of `s`. */
  function TokenEnd(s: string): (n: nat)
    ensures n <= |s|
    decreases |s|
  {
    if |s| == 0 || IsSpace(s[0]) then 0 else 1 + TokenEnd(s[1..])
  }

  /** `str.split()` with no argument: the maximal runs of non-space
      characters, in order. */
  function Words(s: string): seq<string>
    decreases |s|
  {
    if |s| == 0 then []
    else if IsSpace(s[0]) then Words(s[1..])
    else
      var n := TokenEnd(s);
      [s[..n]] + Words(s[n..])
  }

  /** A space ends the leading run. */
  lemma {:induction false} TokenEndStops(a: string, c: char, b: string)
    requires IsSpace(c)
    ensures TokenEnd(a + [c] + b) == TokenEnd(a)
    decreases |a|
  {
    var s := a + [c] + b;
    if |a| == 0 {
      assert s[0] == c;
    } else if IsSpace(a[0]) {
      assert s[0] == a[0];
    } else {
      assert s[0] == a[0];
      assert s[1..] == a[1..] + [c] + b;
      TokenEndStops(a[1..], c, b);
    }
  }

  /** Splitting at a space splits the word list: the words of `a c b`
      are the words of `a` followed by the words of `b`. */
  lemma {:induction false} WordsSplitAt(a: string, c: char, b: string)
    requires IsSpace(c)
    ensures Words(a + [c] + b) == Words(a) + Words(b)
    decreases |a|
  {
    var s := a + [c] + b;
    assert s[0] == if |a| == 0 then c else a[0];
    if |a| == 0 {
      assert s[1..] == b;
      assert Words(s) == Words(b);
    } else if IsSpace(a[0]) {
      assert s[1..] == a[1..] + [c] + b;
      WordsSplitAt(a[1..], c, b);
      assert Words(s) == Words(s[1..]);
    } else {
      WordsSplitAtWord(a, c, b);
    }
  }

  /** The case of `WordsSplitAt` where `a` starts with a word. */
  lemma {:induction false} WordsSplitAtWord(a: string, c: char, b: string)
    requires IsSpace(c) && |a| > 0 && !IsSpace(a[0])
    ensures Words(a + [c] + b) == Words(a) + Words(b)
    decreases |a|, 0
  {
    var s := a + [c] + b;
    var n := TokenEnd(a);
    TokenEndStops(a, c, b);
    assert s[0] == a[0];
    assert Words(s) == [s[..n]] + Words(s[n..]);
    assert Words(a) == [a[..n]] + Words(a[n..]);
    assert s[..n] == a[..n];
    assert s[n..] == a[n..] + [c] + b;
    WordsSplitAt(a[n..], c, b);
  }

  /** The leading run of a word is all of it. */
  lemma {:induction false} TokenEndOfWord(w: string)
    requires forall i :: 0 <= i < |w| ==> !IsSpace(w[i])
    ensures TokenEnd(w) == |w|
    decreases |w|
  {
    if |w| > 0 {
      TokenEndOfWord(w[1..]);
    }
  }

  /** A word splits into itself alone. */
  lemma {:induction false} WordsOfWord(w: string)
    requires IsWord(w)
    ensures Words(w) == [w]
  {
    TokenEndOfWord(w);
    assert w[..|w|] == w;
    assert w[|w|..] == [];
  }

  /** A word, a space, then the rest: the word comes first. */
  lemma {:induction false} WordThenRest(a: string, rest: string)
    requires IsWord(a)
    ensures Words(a + [' '] + rest) == [a] + Words(rest)
  {
    WordsSplitAt(a, ' ', rest);
    WordsOfWord(a);
  }

  /** The rest, a space, then a word: the word comes last. */
  lemma {:induction false} RestThenWord(rest: string, c: string)
    requires IsWord(c)
    ensures Words(rest + [' '] + c) == Words(rest) + [c]
  {
    WordsSplitAt(rest, ' ', c);
    WordsOfWord(c);
  }

  /** Two words, the rest, then a word, all separated by single spaces. */
  lemma {:induction false} WordsAround(a: string, b: string, rest: string, c: string)
    requires IsWord(a) && IsWord(b) && IsWord(c)
    ensures Words(a + [' '] + (b + [' '] + (rest + [' '] + c))) == [a, b] + Words(rest) + [c]
  {
    var tail := rest + [' '] + c;
    var middle := b + [' '] + tail;
    assert Words(tail) == Words(rest) + [c] by {
      RestThenWord(rest, c);
    }
    assert Words(middle) == [b] + Words(tail) by {
      WordThenRest(b, tail);
    }
    assert Words(a + [' '] + middle) == [a] + Words(middle) by {
      WordThenRest(a, middle);
    }
    assert [a] + ([b] + (Words(rest) + [c])) == [a, b] + Words(rest) + [c];
  }
}
