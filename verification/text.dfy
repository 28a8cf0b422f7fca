/** The string operations the views apply to user input: Python's
    `str.strip`, `str.lower`, `str.split`, `str.replace(c, '')`, and the
    case-insensitive substring test that the `icontains` lookup performs. */
module Text {

  /** The characters Python's `str.strip()` removes (`str.isspace`). */
  predicate IsSpace(c: char) {
    c == ' ' || '\t' <= c <= '\r' || '\U{1c}' <= c <= '\U{1f}'
    || c == '\U{85}' || c == '\U{a0}' || c == '\U{1680}'
    || '\U{2000}' <= c <= '\U{200a}' || c == '\U{2028}' || c == '\U{2029}'
    || c == '\U{202f}' || c == '\U{205f}' || c == '\U{3000}'
  }

  /** Drops leading whitespace. */
  function TrimStart(s: string): (r: string)
    ensures |r| <= |s| && r == s[|s| - |r|..]
    ensures forall k :: 0 <= k < |s| - |r| ==> IsSpace(s[k])
    ensures |r| > 0 ==> !IsSpace(r[0])
  {
    if |s| > 0 && IsSpace(s[0]) then TrimStart(s[1..]) else s
  }

  /** Drops trailing whitespace. */
  function TrimEnd(s: string): (r: string)
    ensures |r| <= |s| && r == s[..|r|]
    ensures forall k :: |r| <= k < |s| ==> IsSpace(s[k])
    ensures |r| > 0 ==> !IsSpace(r[|r| - 1])
  {
    if |s| > 0 && IsSpace(s[|s| - 1]) then TrimEnd(s[..|s| - 1]) else s
  }

  /** `s.strip()`: the slice of `s` left after removing its leading and
      trailing whitespace; it neither starts nor ends with whitespace. */
  function Strip(s: string): (r: string)
    ensures |r| <= |s|
    ensures exists i :: TrimmedAt(s, i, r)
    ensures forall c :: c in r ==> c in s
    ensures |r| > 0 ==> !IsSpace(r[0]) && !IsSpace(r[|r| - 1])
    ensures |s| > 0 && !IsSpace(s[0]) && !IsSpace(s[|s| - 1]) ==> r == s
    ensures (forall k :: 0 <= k < |s| ==> IsSpace(s[k])) <==> |r| == 0
  {
    var r := TrimEnd(TrimStart(s));
    TrimBothEnds(s);
    TrimBothSlice(s);
    TrimBothClean(s);
    TrimBothBlank(s);
    r
  }

  /** `r` is the slice of `s` that starts at `i`, and everything of `s`
      before and after it is whitespace. */
  predicate TrimmedAt(s: string, i: nat, r: string) {
    i + |r| <= |s| && r == s[i..i + |r|]
      && (forall k :: 0 <= k < i ==> IsSpace(s[k]))
      && (forall k :: i + |r| <= k < |s| ==> IsSpace(s[k]))
  }

  lemma {:induction false} TrimBothEnds(s: string)
    ensures var t := TrimStart(s); var r := TrimEnd(t);
      (forall c :: c in r ==> c in s) && (|r| > 0 ==> !IsSpace(r[0]) && !IsSpace(r[|r| - 1]))
  {
    var t := TrimStart(s);
    var r := TrimEnd(t);
    assert |r| > 0 ==> r[0] == t[0];
    assert forall c :: c in r ==> c in t;
  }

  /** Trimming both ends cuts a slice out of `s` with only whitespace
      around it. */
  lemma {:induction false} TrimBothSlice(s: string)
    ensures exists i :: TrimmedAt(s, i, TrimEnd(TrimStart(s)))
  {
    var t := TrimStart(s);
    var r := TrimEnd(t);
    var i := |s| - |t|;
    assert r == s[i..i + |r|];
    forall k | i + |r| <= k < |s| ensures IsSpace(s[k]) {
      assert s[k] == t[k - i];
    }
    assert TrimmedAt(s, i, r);
  }

  lemma {:induction false} TrimBothClean(s: string)
    ensures |s| > 0 && !IsSpace(s[0]) && !IsSpace(s[|s| - 1]) ==> TrimEnd(TrimStart(s)) == s
  {
    if |s| > 0 && !IsSpace(s[0]) && !IsSpace(s[|s| - 1]) {
      assert TrimStart(s) == s;
    }
  }

  lemma {:induction false} TrimBothBlank(s: string)
    ensures (forall k :: 0 <= k < |s| ==> IsSpace(s[k])) <==> |TrimEnd(TrimStart(s))| == 0
  {
    var t := TrimStart(s);
    assert |TrimEnd(t)| == 0 ==> |t| == 0;
  }

  /** Stripping a stripped string changes nothing. */
  lemma StripIdempotent(s: string)
    ensures Strip(Strip(s)) == Strip(s)
  {
    var r := Strip(s);
    if |r| == 0 {
      assert TrimStart(r) == r;
    }
  }

  /** Spaces around a string that neither starts nor ends with whitespace
      are exactly what stripping removes. */
  lemma {:induction false} StripPadded(c: string)
    requires |c| > 0 && !IsSpace(c[0]) && !IsSpace(c[|c| - 1])
    ensures Strip(c + " ") == c
    ensures Strip(" " + c + " ") == c
  {
    var t := c + " ";
    assert t[0] == c[0];
    assert TrimStart(t) == t;
    assert t[..|t| - 1] == c;
    assert TrimEnd(c) == c;
    assert TrimEnd(t) == c;
    var u := " " + c + " ";
    assert u[1..] == t;
    assert TrimStart(u) == t;
  }

  /** Python's `str.lower()` on one character: ASCII and the basic Cyrillic
      block (the site's two alphabets); other characters are unchanged. */
  function PyLowerChar(c: char): (r: char)
    ensures ('A' <= c <= 'Z') ==> r as int == c as int + 32
    ensures ('a' <= c <= 'z' || '0' <= c <= '9') ==> r == c
    ensures r != c ==> ('a' <= r <= 'z' || '\U{430}' <= r <= '\U{45f}')
  {
    if 'A' <= c <= 'Z' then (c as int + 32) as char
    else if '\U{410}' <= c <= '\U{42f}' then (c as int + 32) as char
    else if '\U{400}' <= c <= '\U{40f}' then (c as int + 80) as char
    else c
  }

  /** Lowering a lowered character changes nothing. */
  lemma PyLowerCharIdempotent(c: char)
    ensures PyLowerChar(PyLowerChar(c)) == PyLowerChar(c)
  {
  }

  function PyLower(s: string): (r: string)
    ensures |r| == |s|
    ensures IsLower(r)
    ensures forall k :: 0 <= k < |s| ==> r[k] == PyLowerChar(s[k])
  {
    seq(|s|, k requires 0 <= k < |s| => PyLowerChar(s[k]))
  }

  /** A string is lower-case when lowering it changes nothing. */
  predicate IsLower(s: string) {
    forall k :: 0 <= k < |s| ==> PyLowerChar(s[k]) == s[k]
  }

  /** Lowering never produces a comma. */
  lemma {:induction false} LowerKeepsComma(s: string)
    requires ',' !in s
    ensures ',' !in PyLower(s)
  {
    var r := PyLower(s);
    forall k | 0 <= k < |r| ensures r[k] != ',' {
      assert s[k] in s;
    }
  }

  /** Removing a character from a lower-case string leaves it lower-case. */
  lemma {:induction false} RemoveCharKeepsLower(s: string, c: char)
    requires IsLower(s)
    ensures IsLower(RemoveChar(s, c))
  {
    var r := RemoveChar(s, c);
    forall k | 0 <= k < |r| ensures PyLowerChar(r[k]) == r[k] {
      assert r[k] in r;
      var j :| 0 <= j < |s| && s[j] == r[k];
    }
  }

  /** SQLite's `LIKE`, which backs `icontains`, folds ASCII letters only. */
  function AsciiLower(s: string): (r: string)
    ensures |r| == |s|
    ensures forall k :: 0 <= k < |r| ==> !('A' <= r[k] <= 'Z')
    ensures forall k :: 0 <= k < |s| && !('A' <= s[k] <= 'Z') ==> r[k] == s[k]
  {
    seq(|s|, k requires 0 <= k < |s| =>
      if 'A' <= s[k] <= 'Z' then (s[k] as int + 32) as char else s[k])
  }

  /** Folding twice is folding once. */
  lemma AsciiLowerIdempotent(s: string)
    ensures AsciiLower(AsciiLower(s)) == AsciiLower(s)
  {
  }

  /** `s.split(sep)`: the pieces between the separators, at least one. */
  function Split(s: string, sep: char): (r: seq<string>)
    ensures |r| >= 1
    ensures forall k :: 0 <= k < |r| ==> sep !in r[k]
  {
    if |s| == 0 then [""]
    else
      var rest := Split(s[1..], sep);
      if s[0] == sep then [""] + rest
      else [[s[0]] + rest[0]] + rest[1..]
  }

  /** `sep.join(parts)`. */
  function Join(parts: seq<string>, sep: char): string
    requires |parts| >= 1
  {
    if |parts| == 1 then parts[0] else parts[0] + [sep] + Join(parts[1..], sep)
  }

  /** A string without the separator is a single piece. */
  lemma {:induction false} SplitWithoutSeparator(s: string, sep: char)
    requires sep !in s
    ensures Split(s, sep) == [s]
  {
    if |s| > 0 {
      assert sep !in s[1..];
      SplitWithoutSeparator(s[1..], sep);
      assert s == [s[0]] + s[1..];
    }
  }

  /** Splitting loses nothing: joining the pieces gives the input back. */
  lemma {:induction false} JoinSplit(s: string, sep: char)
    ensures Join(Split(s, sep), sep) == s
  {
    if |s| > 0 {
      var rest := Split(s[1..], sep);
      JoinSplit(s[1..], sep);
      if s[0] == sep {
        assert ([""] + rest)[1..] == rest;
      } else {
        var r := [[s[0]] + rest[0]] + rest[1..];
        if |rest| == 1 {
          assert r == [[s[0]] + rest[0]];
        } else {
          assert r[1..] == rest[1..];
          assert Join(rest, sep) == rest[0] + [sep] + Join(rest[1..], sep);
        }
      }
    }
  }

  /** One step of `Split`, stated for a string built from its first
      character. */
  lemma SplitCons(c: char, t: string, sep: char)
    ensures Split([c] + t, sep) ==
      if c == sep then [""] + Split(t, sep)
      else [[c] + Split(t, sep)[0]] + Split(t, sep)[1..]
  {
    var s := [c] + t;
    assert s[0] == c && s[1..] == t;
  }

  /** Splitting at a separator splits each side on its own: the pieces of
      `a,b` are the pieces of `a` followed by the pieces of `b`. */
  lemma {:induction false} SplitAround(a: string, b: string, sep: char)
    ensures Split(a + [sep] + b, sep) == Split(a, sep) + Split(b, sep)
  {
    if |a| == 0 {
      assert a + [sep] + b == [sep] + b;
      SplitCons(sep, b, sep);
    } else {
      var t := a[1..] + [sep] + b;
      assert a + [sep] + b == [a[0]] + t;
      assert a == [a[0]] + a[1..];
      SplitAround(a[1..], b, sep);
      SplitCons(a[0], t, sep);
      SplitCons(a[0], a[1..], sep);
      GlueFirst(a[0], Split(a[1..], sep), Split(b, sep));
    }
  }

  /** The sequence algebra behind one step of `SplitAround`. */
  lemma GlueFirst(c: char, ra: seq<string>, rb: seq<string>)
    requires |ra| >= 1
    ensures [""] + (ra + rb) == [""] + ra + rb
    ensures [[c] + (ra + rb)[0]] + (ra + rb)[1..] == [[c] + ra[0]] + ra[1..] + rb
  {
    assert (ra + rb)[1..] == ra[1..] + rb;
  }

  /** `s.replace(c, '')`: `s` without any occurrence of `c`; every other
      character is kept as often as it occurs. */
  function RemoveChar(s: string, c: char): (r: string)
    ensures c !in r
    ensures |r| <= |s|
    ensures multiset(r) == multiset(s)[c := 0]
    ensures forall d :: d in r <==> d in s && d != c
    ensures c !in s ==> r == s
  {
    if |s| == 0 then ""
    else
      var rest := RemoveChar(s[1..], c);
      assert s == [s[0]] + s[1..];
      assert multiset(s) == multiset{s[0]} + multiset(s[1..]);
      if s[0] == c then rest else [s[0]] + rest
  }

  /** Removal works character by character and keeps the order: removing
      from `a + b` removes from `a` and from `b` separately. */
  lemma {:induction false} RemoveCharAppend(a: string, b: string, c: char)
    ensures RemoveChar(a + b, c) == RemoveChar(a, c) + RemoveChar(b, c)
  {
    if |a| > 0 {
      assert (a + b)[0] == a[0] && (a + b)[1..] == a[1..] + b;
      RemoveCharAppend(a[1..], b, c);
    } else {
      assert a + b == b;
    }
  }

  /** On one character, removal keeps it unless it is `c`. */
  lemma RemoveCharSingle(d: char, c: char)
    ensures RemoveChar([d], c) == if d == c then [] else [d]
  {
    assert [d][1..] == [];
  }

  /** `q in s`: `q` occurs in `s` as a contiguous substring. */
  function Contains(s: string, q: string): (r: bool)
    ensures r <==> exists i :: 0 <= i <= |s| && q <= s[i..]
  {
    if q <= s then assert s[0..] == s; true
    else if |s| == 0 then false
    else
      var r := Contains(s[1..], q);
      assert forall i :: 1 <= i <= |s| ==> s[i..] == s[1..][i - 1..];
      assert r ==> exists i :: 0 <= i <= |s| && q <= s[i..] by {
        if r {
          var i :| 0 <= i <= |s[1..]| && q <= s[1..][i..];
          assert s[1..][i..] == s[i + 1..];
        }
      }
      r
  }

  /** The `icontains` lookup: substring test after ASCII case folding. */
  function IContains(s: string, q: string): bool {
    Contains(AsciiLower(s), AsciiLower(q))
  }
}
