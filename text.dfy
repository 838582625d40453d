/** Character-level helpers: lower-casing and substring search, as used by
    `not_me_validator` and by the `name__icontains` search filter, and the
    whitespace trimming every DRF `CharField` applies to its input. */
module Text {

  /** Lower-cases an ASCII capital letter and leaves every other character as it is. */
  function LowerChar(c: char): char
  {
    if 'A' <= c <= 'Z' then (c as int + 32) as char else c
  }

  function Lower(s: string): (r: string)
    ensures |r| == |s|
    ensures forall i :: 0 <= i < |s| ==> r[i] == LowerChar(s[i])
  {
    seq(|s|, i requires 0 <= i < |s| => LowerChar(s[i]))
  }

  /** `sub` occurs in `s` at some position. */
  predicate Contains(s: string, sub: string)
  {
    exists i | 0 <= i <= |s| - |sub| :: OccursAt(s, sub, i)
  }

  predicate OccursAt(s: string, sub: string, i: int)
    requires 0 <= i <= |s| - |sub|
  {
    s[i..i + |sub|] == sub
  }

  /** Case-insensitive containment (`icontains`). */
  predicate IContains(s: string, sub: string)
  {
    Contains(Lower(s), Lower(sub))
  }

  /** The value that `not_me_validator` refuses: its lower-case form is "me". */
  predicate IsMe(s: string)
  {
    Lower(s) == "me"
  }

  /** The refused usernames are exactly the four letter casings of "me". */
  lemma IsMeCasings(s: string)
    ensures IsMe(s) <==> s in {"me", "Me", "mE", "ME"}
  {
    if s in {"me", "Me", "mE", "ME"} {
      assert Lower(s) == "me";
    }
    if IsMe(s) {
      assert |s| == 2;
      assert LowerChar(s[0]) == 'm' && LowerChar(s[1]) == 'e';
      assert s[0] == 'm' || s[0] == 'M';
      assert s[1] == 'e' || s[1] == 'E';
      assert s == [s[0], s[1]];
    }
  }

  /** Lower-casing twice is lower-casing once. */
  lemma LowerIdempotent(s: string)
    ensures Lower(Lower(s)) == Lower(s)
  {
  }

  /** The search is blind to the letter case of the query and of the name. */
  lemma IContainsCaseBlind(s: string, sub: string)
    ensures IContains(s, sub) <==> IContains(Lower(s), Lower(sub))
  {
    LowerIdempotent(s);
    LowerIdempotent(sub);
  }

  /** Every name contains the empty query. */
  lemma IContainsEmpty(s: string)
    ensures IContains(s, "")
  {
    assert OccursAt(Lower(s), Lower(""), 0);
  }

  /** The characters Python's `str.isspace` accepts, which `str.strip` removes. */
  predicate IsSpace(c: char)
  {
    || c == ' ' || ('\t' <= c <= '\r') || ('\U{1c}' <= c <= '\U{1f}')
    || c == '\U{85}' || c == '\U{a0}' || c == '\U{1680}' || ('\U{2000}' <= c <= '\U{200a}')
    || c == '\U{2028}' || c == '\U{2029}' || c == '\U{202f}' || c == '\U{205f}' || c == '\U{3000}'
  }

  /** The number of whitespace characters that open `s`. */
  function LeadingSpaces(s: string): (n: nat)
    ensures n <= |s|
    ensures forall k :: 0 <= k < n ==> IsSpace(s[k])
    ensures n < |s| ==> !IsSpace(s[n])
  {
    if s == [] || !IsSpace(s[0]) then 0 else 1 + LeadingSpaces(s[1..])
  }

  /** The number of whitespace characters that close `s`. */
  function TrailingSpaces(s: string): (n: nat)
    ensures n <= |s|
    ensures forall k :: |s| - n <= k < |s| ==> IsSpace(s[k])
    ensures n < |s| ==> !IsSpace(s[|s| - n - 1])
  {
    if s == [] || !IsSpace(s[|s| - 1]) then 0 else 1 + TrailingSpaces(s[..|s| - 1])
  }

  /** `str.strip()`, which a DRF `CharField` applies to its input
      (`trim_whitespace=True`): the longest slice of `s` that neither starts
      nor ends with whitespace, empty when `s` is whitespace only. */
  function Trim(s: string): (r: string)
    ensures r == [] <==> forall k :: 0 <= k < |s| ==> IsSpace(s[k])
    ensures r != [] ==> !IsSpace(r[0]) && !IsSpace(r[|r| - 1])
  {
    var i := LeadingSpaces(s);
    if i == |s| then
      assert s[i..i] == [];
      []
    else
      var j := |s| - TrailingSpaces(s);
      s[i..j]
  }

  /** `Trim` only cuts whitespace off the two ends: what remains is a slice of `s`. */
  lemma TrimSlice(s: string)
    ensures exists i, j ::
      (0 <= i <= j <= |s| && Trim(s) == s[i..j]
       && (forall k :: 0 <= k < i ==> IsSpace(s[k])) && (forall k :: j <= k < |s| ==> IsSpace(s[k])))
  {
    var i := LeadingSpaces(s);
    if i == |s| {
      assert Trim(s) == s[i..i];
    } else {
      var j := |s| - TrailingSpaces(s);
      assert Trim(s) == s[i..j];
    }
  }

  /** A value with no whitespace at either end comes out of `Trim` unchanged. */
  lemma TrimKeeps(s: string)
    requires s == [] || (!IsSpace(s[0]) && !IsSpace(s[|s| - 1]))
    ensures Trim(s) == s
  {
    if s != [] {
      assert LeadingSpaces(s) == 0;
      assert TrailingSpaces(s) == 0;
    }
  }

  /** Trimming twice is trimming once. */
  lemma TrimIdempotent(s: string)
    ensures Trim(Trim(s)) == Trim(s)
  {
    TrimKeeps(Trim(s));
  }
}
