/** `_generate_prefix`: draw eight random lower-case letters until no entry
    of the scan directory starts with them. The random source is a finite
    stream of `random.choice` results, each an index into
    `string.ascii_lowercase`. */
module PrefixAllocator {
  import opened Outcomes
  import opened Text

  const PrefixLength := 8

  /** One `random.choice(string.ascii_lowercase)`, as the index it picked. */
  type LetterIndex = i: int | 0 <= i < 26

  /** `string.ascii_lowercase[i]` */
  function Letter(i: LetterIndex): (c: char)
    ensures IsLower(c)
  {
    ('a' as int + i) as char
  }

  /** `"".join(...)` of the drawn letters. */
  function Spell(d: seq<LetterIndex>): (r: string)
    ensures |r| == |d| && AllLower(r)
  {
    seq(|d|, j requires 0 <= j < |d| => Letter(d[j]))
  }

  /** The candidates the `while True` loop tries, eight draws per round;
      trailing draws that do not fill a round are unused. */
  function Rounds(draws: seq<LetterIndex>): (r: seq<string>)
    ensures |r| == |draws| / PrefixLength
    ensures forall c :: c in r ==> |c| == PrefixLength && AllLower(c)
    decreases |draws|
  {
    if |draws| < PrefixLength then []
    else [Spell(draws[..PrefixLength])] + Rounds(draws[PrefixLength..])
  }

  /** No directory entry starts with `p`. */
  predicate Fresh(listing: seq<string>, p: string)
  {
    forall e :: e in listing ==> !(p <= e)
  }

  /** `[f for f in listing if f.startswith(p)]`: the entries starting with
      `p`, in directory order, so its head is the earliest such entry. */
  function Matching(listing: seq<string>, p: string): (r: seq<string>)
    ensures forall e :: e in r <==> e in listing && p <= e
    ensures |r| <= |listing|
    ensures |r| == 0 <==> Fresh(listing, p)
    ensures |r| > 0 ==> exists i :: 0 <= i < |listing| && listing[i] == r[0] && forall j :: 0 <= j < i ==> !(p <= listing[j])
    decreases |listing|
  {
    if |listing| == 0 then []
    else if p <= listing[0] then
      assert listing[0] in listing;
      [listing[0]] + Matching(listing[1..], p)
    else
      var rest := Matching(listing[1..], p);
      assert |rest| > 0 ==> listing[1..][0] == listing[1];
      rest
  }

  /** The first fresh candidate, or None when every candidate collides. */
  function FirstFresh(listing: seq<string>, cands: seq<string>): (r: Option<string>)
    ensures r.None? <==> forall c :: c in cands ==> !Fresh(listing, c)
    ensures r.Some? ==> Fresh(listing, r.value)
    ensures r.Some? ==> exists k :: 0 <= k < |cands| && cands[k] == r.value && forall j :: 0 <= j < k ==> !Fresh(listing, cands[j])
    decreases |cands|
  {
    if |cands| == 0 then None
    else if |Matching(listing, cands[0])| == 0 then
      assert forall e :: e in listing ==> e !in Matching(listing, cands[0]);
      assert cands[0] in cands;
      Some(cands[0])
    else
      var rest := FirstFresh(listing, cands[1..]);
      assert !Fresh(listing, cands[0]) by {
        var e := Matching(listing, cands[0])[0];
        assert e in listing && cands[0] <= e;
      }
      assert forall j :: 1 <= j < |cands| ==> cands[1..][j - 1] == cands[j];
      assert rest.Some? ==> exists k :: 0 <= k < |cands| && cands[k] == rest.value && forall j :: 0 <= j < k ==> !Fresh(listing, cands[j]) by {
        if rest.Some? {
          var k :| 0 <= k < |cands[1..]| && cands[1..][k] == rest.value && forall j :: 0 <= j < k ==> !Fresh(listing, cands[1..][j]);
          assert cands[k + 1] == rest.value;
        }
      }
      rest
  }

  /** The prefix `_generate_prefix` returns for this directory and this
      random stream: eight lower-case letters no entry starts with. */
  function AllocatePrefix(listing: seq<string>, draws: seq<LetterIndex>): (r: Option<string>)
    ensures r.Some? ==> |r.value| == PrefixLength && AllLower(r.value) && Fresh(listing, r.value)
    ensures r.None? <==> forall c :: c in Rounds(draws) ==> !Fresh(listing, c)
  {
    FirstFresh(listing, Rounds(draws))
  }

  /** The retry loop of `_generate_prefix`, consuming eight draws per round. */
  method GeneratePrefix(listing: seq<string>, draws: seq<LetterIndex>) returns (r: Option<string>)
    ensures r == AllocatePrefix(listing, draws)
    ensures r.Some? ==> |r.value| == PrefixLength && AllLower(r.value) && Fresh(listing, r.value)
  {
    var i := 0;
    while i + PrefixLength <= |draws|
      invariant 0 <= i <= |draws|
      invariant AllocatePrefix(listing, draws) == FirstFresh(listing, Rounds(draws[i..]))
      decreases |draws| - i
    {
      var prefix := Spell(draws[i..i + PrefixLength]);
      var files := Matching(listing, prefix);
      assert draws[i..][..PrefixLength] == draws[i..i + PrefixLength];
      assert draws[i..][PrefixLength..] == draws[i + PrefixLength..];
      assert Rounds(draws[i..]) == [prefix] + Rounds(draws[i + PrefixLength..]);
      if |files| == 0 {
        return Some(prefix);
      }
      assert ([prefix] + Rounds(draws[i + PrefixLength..]))[1..] == Rounds(draws[i + PrefixLength..]);
      i := i + PrefixLength;
    }
    return None;
  }
}
