/** Python's `str.replace(key, value)` and the in-order application of a
    replacement dict, which is how both servers rewrite their scanner
    configuration template. */
module Substitution {
  import opened Text

  /** A Python dict of replacements in insertion order. */
  type ReplaceMap = seq<(string, string)>

  /** `s.replace(key, value)`: every non-overlapping occurrence of `key`,
      found scanning left to right, becomes `value`. An empty `key` matches
      before every character and at the end. */
  function Replace(s: string, key: string, value: string): string
    decreases |s|
  {
    if |key| == 0 then
      (if |s| == 0 then value else value + [s[0]] + Replace(s[1..], key, value))
    else if |s| == 0 then []
    else if key <= s then value + Replace(s[|key|..], key, value)
    else [s[0]] + Replace(s[1..], key, value)
  }

  /** The loop `for key, value in m.items(): text = text.replace(key, value)`. */
  function ApplyReplacements(text: string, m: ReplaceMap): string
    decreases |m|
  {
    if |m| == 0 then text else ApplyReplacements(Replace(text, m[0].0, m[0].1), m[1..])
  }

  predicate OccursAt(s: string, key: string, i: int)
  {
    0 <= i <= |s| && key <= s[i..]
  }

  predicate Occurs(s: string, key: string)
  {
    exists i :: 0 <= i <= |s| && OccursAt(s, key, i)
  }

  /** No occurrence of `key` in `t` is immediately preceded by a lower-case
      letter. */
  predicate LowerFreeBefore(t: string, key: string)
  {
    forall i :: 0 < i <= |t| && OccursAt(t, key, i) ==> !IsLower(t[i - 1])
  }

  lemma {:induction false} SuffixOccurrence(t: string, key: string, n: int, i: int)
    requires 0 <= n <= |t| && 0 <= i
    ensures OccursAt(t[n..], key, i) <==> OccursAt(t, key, n + i)
  {
    if i <= |t| - n {
      assert t[n..][i..] == t[n + i..];
    }
  }

  /** Both side conditions of the restore round trip survive dropping a prefix. */
  lemma {:induction false} SuffixInherits(t: string, key: string, p: string, n: int)
    requires 0 <= n <= |t|
    ensures !Occurs(t, p) ==> !Occurs(t[n..], p)
    ensures LowerFreeBefore(t, key) ==> LowerFreeBefore(t[n..], key)
  {
    if !Occurs(t, p) && Occurs(t[n..], p) {
      var i :| 0 <= i <= |t[n..]| && OccursAt(t[n..], p, i);
      SuffixOccurrence(t, p, n, i);
    }
    if LowerFreeBefore(t, key) {
      forall i | 0 < i <= |t[n..]| && OccursAt(t[n..], key, i)
        ensures !IsLower(t[n..][i - 1])
      {
        SuffixOccurrence(t, key, n, i);
      }
    }
  }

  /** One step of `Replace` where no occurrence starts at the front. */
  lemma {:induction false} ReplaceSkip(s: string, key: string, value: string)
    requires |key| > 0 && |s| > 0 && !(key <= s)
    ensures Replace(s, key, value) == [s[0]] + Replace(s[1..], key, value)
  {
  }

  /** One step of `Replace` where an occurrence starts at the front. */
  lemma {:induction false} ReplaceHit(s: string, key: string, value: string)
    requires |key| > 0 && key <= s
    ensures Replace(s, key, value) == value + Replace(s[|key|..], key, value)
  {
  }

  /** Text before the first occurrence is copied unchanged. */
  lemma {:induction false} ReplaceCopiesUnmatched(t: string, key: string, value: string, j: int)
    requires |key| > 0 && 0 <= j <= |t|
    requires forall i :: 0 <= i < j ==> !OccursAt(t, key, i)
    ensures Replace(t, key, value) == t[..j] + Replace(t[j..], key, value)
    decreases j
  {
    if j == 0 {
      assert t[..0] == [] && t[0..] == t;
    } else {
      ReplaceCopiesUnmatched(t, key, value, j - 1);
      var u := t[j - 1..];
      var rest := Replace(t[j..], key, value);
      assert Replace(u, key, value) == [t[j - 1]] + rest by {
        assert !OccursAt(t, key, j - 1);
        ReplaceSkip(u, key, value);
        assert u[1..] == t[j..];
      }
      assert t[..j - 1] + ([t[j - 1]] + rest) == t[..j] + rest by {
        assert t[..j - 1] + [t[j - 1]] == t[..j];
      }
    }
  }

  /** Without an occurrence of a non-empty key, replacing changes nothing. */
  lemma {:induction false} ReplaceWithoutKey(s: string, key: string, value: string)
    requires |key| > 0 && !Occurs(s, key)
    ensures Replace(s, key, value) == s
  {
    ReplaceCopiesUnmatched(s, key, value, |s|);
    assert s[..|s|] == s;
  }

  /** Left to right: the first occurrence of the key is the one replaced,
      and scanning resumes right after it. */
  lemma {:induction false} ReplaceLeftmost(a: string, key: string, b: string, value: string)
    requires |key| > 0
    requires forall i :: 0 <= i < |a| ==> !OccursAt(a + key + b, key, i)
    ensures Replace(a + key + b, key, value) == a + value + Replace(b, key, value)
  {
    var s := a + key + b;
    ReplaceCopiesUnmatched(s, key, value, |a|);
    assert s[..|a|] == a;
    assert s[|a|..] == key + b;
    assert (key + b)[|key|..] == b;
  }

  /** Replacing shrinks the text when the value is shorter than the key
      and grows it when it is longer. */
  lemma {:induction false} ReplaceLengthDirection(s: string, key: string, value: string)
    requires |key| > 0
    ensures |value| <= |key| ==> |Replace(s, key, value)| <= |s|
    ensures |value| >= |key| ==> |Replace(s, key, value)| >= |s|
    decreases |s|
  {
    if |s| == 0 {
    } else if key <= s {
      ReplaceLengthDirection(s[|key|..], key, value);
    } else {
      ReplaceLengthDirection(s[1..], key, value);
    }
  }

  /** Replacing an occurring key by a different value always changes the text. */
  lemma {:induction false} ReplaceTakesEffect(s: string, key: string, value: string)
    requires |key| > 0 && Occurs(s, key) && value != key
    ensures Replace(s, key, value) != s
    decreases |s|
  {
    var r := Replace(s, key, value);
    if key <= s {
      var rest := s[|key|..];
      ReplaceLengthDirection(rest, key, value);
      assert r == value + Replace(rest, key, value);
      assert s == key + rest;
      if |value| == |key| {
        assert r[..|key|] == value;
        assert s[..|key|] == key;
      }
    } else {
      var i :| 0 <= i <= |s| && OccursAt(s, key, i);
      assert !OccursAt(s, key, 0);
      assert s[0..] == s;
      SuffixOccurrence(s, key, 1, i - 1);
      ReplaceTakesEffect(s[1..], key, value);
      assert r == [s[0]] + Replace(s[1..], key, value);
      assert r[1..] == Replace(s[1..], key, value);
    }
  }

  /** Replacing an occurring key puts the value into the text. */
  lemma {:induction false} ReplaceInsertsValue(s: string, key: string, value: string)
    requires |key| > 0 && Occurs(s, key)
    ensures Occurs(Replace(s, key, value), value)
    decreases |s|
  {
    var r := Replace(s, key, value);
    if key <= s {
      ReplaceHit(s, key, value);
      assert OccursAt(r, value, 0) by {
        assert r[0..] == r;
      }
    } else {
      var i :| 0 <= i <= |s| && OccursAt(s, key, i);
      assert i > 0 by {
        assert s[0..] == s;
      }
      SuffixOccurrence(s, key, 1, i - 1);
      ReplaceInsertsValue(s[1..], key, value);
      ReplaceSkip(s, key, value);
      var rest := Replace(s[1..], key, value);
      var j :| 0 <= j <= |rest| && OccursAt(rest, value, j);
      assert r[1..] == rest;
      SuffixOccurrence(r, value, 1, j);
    }
  }

  /** An occurrence of `w` at `i` survives replacing `key` when no
      occurrence of `key` starts close enough to overlap it: the left-to-right
      scan then reaches `i` and copies `w` unchanged. */
  lemma {:induction false} ReplaceKeepsOccurrence(s: string, key: string, value: string, w: string, i: int)
    requires |key| > 0 && OccursAt(s, w, i)
    requires forall j :: 0 <= j < |s| && i - |key| < j < i + |w| ==> !OccursAt(s, key, j)
    ensures Occurs(Replace(s, key, value), w)
    decreases |s|
  {
    var r := Replace(s, key, value);
    if i == 0 {
      ReplaceCopiesUnmatched(s, key, value, |w|);
      assert OccursAt(r, w, 0) by {
        assert s[0..] == s && r[0..] == r;
        assert r[..|w|] == s[..|w|] == w;
      }
    } else {
      var n := if key <= s then |key| else 1;
      if key <= s {
        assert OccursAt(s, key, 0) by {
          assert s[0..] == s;
        }
        assert n <= i;
        ReplaceHit(s, key, value);
      } else {
        ReplaceSkip(s, key, value);
      }
      var m := if key <= s then |value| else 1;
      assert r[m..] == Replace(s[n..], key, value);
      SuffixOccurrence(s, w, n, i - n);
      forall j | 0 <= j < |s[n..]| && (i - n) - |key| < j < (i - n) + |w|
        ensures !OccursAt(s[n..], key, j)
      {
        SuffixOccurrence(s, key, n, j);
      }
      ReplaceKeepsOccurrence(s[n..], key, value, w, i - n);
      var rest := Replace(s[n..], key, value);
      var k :| 0 <= k <= |rest| && OccursAt(rest, w, k);
      SuffixOccurrence(r, w, m, k);
    }
  }

  /** After substituting the lower-case token `p` for `key`, no occurrence
      of `p` can start at position 0 unless `t` itself starts with `key`:
      `j` walks over the first positions of `t` that hold no key. */
  lemma {:induction false} NoSpuriousMatch(t: string, key: string, p: string, j: int)
    requires |key| > 0 && |p| > 0 && AllLower(p)
    requires !Occurs(t, p) && LowerFreeBefore(t, key)
    requires 1 <= j <= |p| && j <= |t|
    requires forall i :: 0 <= i < j ==> !OccursAt(t, key, i)
    ensures !(p <= Replace(t, key, p))
    decreases |p| - j
  {
    var r := Replace(t, key, p);
    var m := if |p| < |t| then |p| else |t|;
    if j == m {
      ReplaceCopiesUnmatched(t, key, p, m);
      if m == |p| {
        assert r[..|p|] == t[..|p|];
        assert !OccursAt(t, p, 0) && t[0..] == t;
      } else {
        assert t[..|t|] == t && t[|t|..] == [];
        assert r == t;
      }
    } else if OccursAt(t, key, j) {
      ReplaceCopiesUnmatched(t, key, p, j);
      assert r[j - 1] == t[j - 1];
      assert !IsLower(t[j - 1]);
      assert IsLower(p[j - 1]);
    } else {
      NoSpuriousMatch(t, key, p, j + 1);
    }
  }

  /** Substituting a lower-case token `p` for `key` and then `key` for `p`
      gives back the template, provided `p` does not already occur in it
      and no placeholder is preceded by a lower-case letter. */
  lemma {:induction false} RestoreRoundTrip(t: string, key: string, p: string)
    requires |key| > 0 && |p| > 0 && AllLower(p)
    requires !Occurs(t, p) && LowerFreeBefore(t, key)
    ensures Replace(Replace(t, key, p), p, key) == t
    decreases |t|
  {
    if |t| == 0 {
    } else if key <= t {
      var rest := t[|key|..];
      var r1 := Replace(t, key, p);
      assert r1 == p + Replace(rest, key, p) by {
        ReplaceHit(t, key, p);
      }
      assert Replace(rest, key, p) == r1[|p|..];
      assert Replace(r1, p, key) == key + Replace(r1[|p|..], p, key) by {
        ReplaceHit(r1, p, key);
      }
      assert Replace(Replace(rest, key, p), p, key) == rest by {
        SuffixInherits(t, key, p, |key|);
        RestoreRoundTrip(rest, key, p);
      }
      assert t == key + rest;
    } else {
      var r1 := Replace(t, key, p);
      assert r1 == [t[0]] + Replace(t[1..], key, p) by {
        ReplaceSkip(t, key, p);
      }
      assert Replace(t[1..], key, p) == r1[1..];
      assert Replace(r1, p, key) == [t[0]] + Replace(r1[1..], p, key) by {
        assert !OccursAt(t, key, 0) && t[0..] == t;
        NoSpuriousMatch(t, key, p, 1);
        ReplaceSkip(r1, p, key);
      }
      assert Replace(Replace(t[1..], key, p), p, key) == t[1..] by {
        SuffixInherits(t, key, p, 1);
        RestoreRoundTrip(t[1..], key, p);
      }
      assert t == [t[0]] + t[1..];
    }
  }

  /** The dict is applied in insertion order: one more entry means one more
      `replace` on the text so far. */
  lemma {:induction false} ApplyReplacementsInOrder(text: string, m: ReplaceMap, key: string, value: string)
    ensures ApplyReplacements(text, m + [(key, value)]) == Replace(ApplyReplacements(text, m), key, value)
    decreases |m|
  {
    if |m| == 0 {
      assert m + [(key, value)] == [(key, value)];
    } else {
      assert (m + [(key, value)])[0] == m[0];
      assert (m + [(key, value)])[1..] == m[1..] + [(key, value)];
      ApplyReplacementsInOrder(Replace(text, m[0].0, m[0].1), m[1..], key, value);
    }
  }

  /** A dict none of whose non-empty keys occurs in the text leaves it as
      it is: each `replace` is a no-op, so no later key can appear either. */
  lemma {:induction false} ApplyWithoutKeys(text: string, m: ReplaceMap)
    requires forall k :: 0 <= k < |m| ==> |m[k].0| > 0 && !Occurs(text, m[k].0)
    ensures ApplyReplacements(text, m) == text
    decreases |m|
  {
    if |m| > 0 {
      ReplaceWithoutKey(text, m[0].0, m[0].1);
      assert forall k :: 0 <= k < |m[1..]| ==> m[1..][k] == m[k + 1];
      ApplyWithoutKeys(text, m[1..]);
    }
  }

  /** The loop `for key, value in m.items(): new_config = new_config.replace(key, value)`
      run entry by entry; it computes the left fold over the dict. */
  method RewriteInOrder(text: string, m: ReplaceMap) returns (newConfig: string)
    ensures newConfig == ApplyReplacements(text, m)
  {
    newConfig := text;
    var i := 0;
    while i < |m|
      invariant 0 <= i <= |m|
      invariant newConfig == ApplyReplacements(text, m[..i])
    {
      var key, value := m[i].0, m[i].1;
      ApplyReplacementsInOrder(text, m[..i], key, value);
      assert m[..i + 1] == m[..i] + [(key, value)];
      newConfig := Replace(newConfig, key, value);
      i := i + 1;
    }
    assert m[..|m|] == m;
  }

  /** A one-entry dict is a single `replace`. */
  lemma {:induction false} ApplySingle(text: string, key: string, value: string)
    ensures ApplyReplacements(text, [(key, value)]) == Replace(text, key, value)
  {
    assert [(key, value)][1..] == [];
  }
}
