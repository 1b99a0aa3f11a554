/** The Python string built-ins the documentation server relies on, over ASCII:
    `str.strip`, `str.lower`, `str.startswith`, the `in` substring test,
    `str.split` and `str.join` on one separator character, and `str.replace`
    of one character. */
module Text {

  datatype Option<T> = None | Some(value: T)

  /** Python's `str.isspace` restricted to ASCII: tab, line feed, vertical tab,
      form feed, carriage return, the four information separators 0x1C-0x1F,
      and space. */
  predicate IsSpace(c: char) {
    (9 <= c as int <= 13) || (28 <= c as int <= 32)
  }

  /** Number of whitespace characters at the front of `s`. */
  function LeadingSpace(s: string): (n: nat)
    ensures n <= |s|
    ensures n < |s| ==> !IsSpace(s[n])
  {
    if s == [] || !IsSpace(s[0]) then 0 else 1 + LeadingSpace(s[1..])
  }

  /** Every character before `LeadingSpace(s)` is whitespace. */
  lemma {:induction false} LeadingAllSpace(s: string, i: nat)
    requires i < LeadingSpace(s)
    ensures IsSpace(s[i])
  {
    if i > 0 {
      LeadingAllSpace(s[1..], i - 1);
    }
  }

  /** Index where the run of whitespace at the back of `s` begins. */
  function TrailingStart(s: string): (n: nat)
    ensures n <= |s|
    ensures 0 < n ==> !IsSpace(s[n - 1])
  {
    if s == [] || !IsSpace(s[|s| - 1]) then |s| else TrailingStart(s[..|s| - 1])
  }

  /** Every character from `TrailingStart(s)` on is whitespace. */
  lemma {:induction false} TrailingAllSpace(s: string, i: nat)
    requires TrailingStart(s) <= i < |s|
    ensures IsSpace(s[i])
  {
    if i < |s| - 1 {
      TrailingAllSpace(s[..|s| - 1], i);
    }
  }

  /** `str.strip()`: `s` without its leading and trailing whitespace. */
  function Strip(s: string): (r: string)
    ensures |r| <= |s|
    ensures r == [] || (!IsSpace(r[0]) && !IsSpace(r[|r| - 1]))
  {
    var front := s[LeadingSpace(s)..];
    front[..TrailingStart(front)]
  }

  /** The stripped string is the infix of `s` that starts at `LeadingSpace(s)`. */
  lemma StripIsInfix(s: string) returns (a: nat)
    ensures a == LeadingSpace(s)
    ensures a + |Strip(s)| <= |s| && s[a..a + |Strip(s)|] == Strip(s)
  {
    a := LeadingSpace(s);
    var front := s[a..];
    assert Strip(s) == front[..TrailingStart(front)];
  }

  /** Stripping removes only whitespace, and only at the two ends: every
      character of `s` before or after the stripped infix is whitespace. */
  lemma StripMargins(s: string, i: nat)
    requires i < |s|
    ensures i < LeadingSpace(s) || LeadingSpace(s) + |Strip(s)| <= i ==> IsSpace(s[i])
  {
    var a := StripIsInfix(s);
    var front := s[a..];
    if i < a {
      LeadingAllSpace(s, i);
    } else if a + |Strip(s)| <= i {
      assert s[i] == front[i - a];
      TrailingAllSpace(front, i - a);
    }
  }

  /** A stripped slice of `s` occurs in `s`. */
  lemma StripOfSliceOccurs(s: string, lo: nat, hi: nat, t: string)
    requires lo <= hi <= |s| && t == s[lo..hi]
    ensures Contains(s, Strip(t))
  {
    var a := StripIsInfix(t);
    InfixOfSliceOccurs(s, lo, hi, Strip(t), a);
  }

  /** An infix of a slice of `s` occurs in `s`. */
  lemma InfixOfSliceOccurs(s: string, lo: nat, hi: nat, p: string, a: nat)
    requires lo <= hi <= |s| && a + |p| <= hi - lo && s[lo..hi][a..a + |p|] == p
    ensures Contains(s, p)
  {
    SliceOfSlice(s, lo, hi, a, a + |p|);
    ContainsAt(s, p, lo + a);
  }

  /** A slice of a slice is a slice. */
  lemma SliceOfSlice<T>(s: seq<T>, lo: nat, hi: nat, a: nat, b: nat)
    requires lo <= hi <= |s| && a <= b <= hi - lo
    ensures s[lo..hi][a..b] == s[lo + a..lo + b]
  {
    var inner := s[lo..hi];
    forall k | 0 <= k < b - a
      ensures inner[a..b][k] == s[lo + a..lo + b][k]
    {
      assert inner[a..b][k] == inner[a + k] == s[lo + a + k];
    }
  }

  /** `[line.strip() for line in lines]`. */
  function StripEach(lines: seq<string>): (r: seq<string>)
    ensures |r| == |lines|
    ensures forall i :: 0 <= i < |lines| ==> r[i] == Strip(lines[i])
  {
    seq(|lines|, i requires 0 <= i < |lines| => Strip(lines[i]))
  }

  /** Stripping only removes characters. */
  lemma StripChars(s: string)
    ensures forall c :: c in Strip(s) ==> c in s
  {
    var a := StripIsInfix(s);
    var r := Strip(s);
    forall c | c in r ensures c in s {
      var k :| 0 <= k < |r| && r[k] == c;
      assert s[a + k] == c;
    }
  }

  /** `s.strip()` is empty exactly when `s` is all whitespace. */
  lemma StripEmpty(s: string)
    ensures Strip(s) == [] <==> forall i :: 0 <= i < |s| ==> IsSpace(s[i])
  {
    if Strip(s) == [] {
      forall i | 0 <= i < |s| ensures IsSpace(s[i]) {
        StripMargins(s, i);
      }
    } else {
      var a := StripIsInfix(s);
      assert !IsSpace(s[a]);
    }
  }

  /** A string with no whitespace at either end is its own stripping. */
  lemma StripFixed(s: string)
    requires s == [] || (!IsSpace(s[0]) && !IsSpace(s[|s| - 1]))
    ensures Strip(s) == s
  {
    assert LeadingSpace(s) == 0;
    assert s[0..] == s;
    assert TrailingStart(s) == |s|;
  }

  /** `str.strip()` is idempotent. */
  lemma StripIdempotent(s: string)
    ensures Strip(Strip(s)) == Strip(s)
  {
    StripFixed(Strip(s));
  }

  /** ASCII lower-casing of one character. */
  function LowerChar(c: char): char {
    if 'A' <= c <= 'Z' then (c as int + 32) as char else c
  }

  predicate IsUpper(c: char) {
    'A' <= c <= 'Z'
  }

  /** `str.lower()` on ASCII letters; every other character is kept. */
  function Lower(s: string): (r: string)
    ensures |r| == |s|
    ensures forall i :: 0 <= i < |s| ==> r[i] == LowerChar(s[i])
  {
    if s == [] then [] else [LowerChar(s[0])] + Lower(s[1..])
  }

  predicate HasUpper(s: string) {
    exists i :: 0 <= i < |s| && IsUpper(s[i])
  }

  /** `str.startswith(prefix)`. */
  predicate StartsWith(s: string, prefix: string) {
    prefix <= s
  }

  /** Python's `p in s`: `p` occurs in `s` at some offset. */
  predicate Contains(s: string, p: string)
    decreases |s|
  {
    p <= s || (s != [] && Contains(s[1..], p))
  }

  /** An occurrence at offset `a` is found by `Contains`. */
  lemma {:induction false} ContainsAt(s: string, p: string, a: nat)
    requires a + |p| <= |s| && s[a..a + |p|] == p
    ensures Contains(s, p)
  {
    if a == 0 {
      assert p <= s;
    } else {
      assert s[1..][a - 1..a - 1 + |p|] == s[a..a + |p|];
      ContainsAt(s[1..], p, a - 1);
    }
  }

  /** A contained string occurs at some offset: with `ContainsAt`, `Contains`
      holds exactly when `p` is an infix of `s`. */
  lemma {:induction false} ContainsOffset(s: string, p: string) returns (a: nat)
    requires Contains(s, p)
    ensures a + |p| <= |s| && s[a..a + |p|] == p
    decreases |s|
  {
    if p <= s {
      a := 0;
    } else {
      var b := ContainsOffset(s[1..], p);
      a := b + 1;
      assert s[1..][b..b + |p|] == s[a..a + |p|];
    }
  }

  /** A contained string is no longer than its container. */
  lemma ContainsLen(s: string, p: string)
    requires Contains(s, p)
    ensures |p| <= |s|
  {
    var a := ContainsOffset(s, p);
  }

  /** Lower-casing keeps containment: if `p in s` then `p.lower() in s.lower()`. */
  lemma ContainsLower(s: string, p: string)
    requires Contains(s, p)
    ensures Contains(Lower(s), Lower(p))
  {
    var a := ContainsOffset(s, p);
    var ls, lp := Lower(s), Lower(p);
    forall k | 0 <= k < |p|
      ensures ls[a..a + |p|][k] == lp[k]
    {
      assert s[a..a + |p|][k] == p[k];
    }
    assert ls[a..a + |p|] == lp;
    ContainsAt(ls, lp, a);
  }

  /** Every character of a contained string is a character of the container. */
  lemma {:induction false} ContainedChars(s: string, p: string)
    requires Contains(s, p)
    ensures forall c :: c in p ==> c in s
  {
    if p <= s {
      forall c | c in p ensures c in s {
        var k :| 0 <= k < |p| && p[k] == c;
        assert s[k] == c;
      }
    } else {
      ContainedChars(s[1..], p);
      forall c | c in p ensures c in s {
        assert c in s[1..];
      }
    }
  }

  /** Index of the first `c` in `s` at or after `from`, or `|s|` if there is none. */
  function IndexOf(s: string, c: char, from: nat): (k: nat)
    requires from <= |s|
    ensures from <= k <= |s|
    ensures forall i :: from <= i < k ==> s[i] != c
    ensures k < |s| ==> s[k] == c
    decreases |s| - from
  {
    if from == |s| || s[from] == c then from else IndexOf(s, c, from + 1)
  }

  /** `s.split(sep)` for a one-character separator: never empty, and the
      pieces hold no separator. */
  function SplitOn(s: string, sep: char): (r: seq<string>)
    ensures |r| >= 1
    ensures forall piece :: piece in r ==> sep !in piece
    decreases |s|
  {
    var k := IndexOf(s, sep, 0);
    if k == |s| then [s] else [s[..k]] + SplitOn(s[k + 1..], sep)
  }

  /** `[sep].join(pieces)` for a one-character separator. */
  function JoinWith(pieces: seq<string>, sep: char): string
  {
    if |pieces| == 0 then ""
    else if |pieces| == 1 then pieces[0]
    else pieces[0] + [sep] + JoinWith(pieces[1..], sep)
  }

  /** A join is at least as long as its first piece. */
  lemma JoinFirst(pieces: seq<string>, sep: char)
    requires pieces != []
    ensures |JoinWith(pieces, sep)| >= |pieces[0]|
  {
  }

  /** Joining the pieces of a split gives back the string. */
  lemma {:induction false} JoinSplit(s: string, sep: char)
    ensures JoinWith(SplitOn(s, sep), sep) == s
    decreases |s|
  {
    var k := IndexOf(s, sep, 0);
    var pieces := SplitOn(s, sep);
    if k < |s| {
      var rest := s[k + 1..];
      JoinSplit(rest, sep);
      assert pieces == [s[..k]] + SplitOn(rest, sep);
      assert pieces[0] == s[..k] && pieces[1..] == SplitOn(rest, sep);
      assert JoinWith(pieces, sep) == s[..k] + [sep] + JoinWith(SplitOn(rest, sep), sep);
      assert s == s[..k] + [sep] + rest;
    } else {
      assert pieces == [s];
    }
  }

  /** Splitting a join of separator-free pieces gives back the pieces. */
  lemma {:induction false} SplitJoin(pieces: seq<string>, sep: char)
    requires |pieces| >= 1
    requires forall piece :: piece in pieces ==> sep !in piece
    ensures SplitOn(JoinWith(pieces, sep), sep) == pieces
  {
    var s := JoinWith(pieces, sep);
    var first := pieces[0];
    if |pieces| == 1 {
      NoSepIndex(first, sep);
    } else {
      var rest := JoinWith(pieces[1..], sep);
      assert s == first + [sep] + rest;
      FirstSepIndex(first, rest, sep);
      assert s[..|first|] == first;
      assert s[|first| + 1..] == rest;
      SplitJoin(pieces[1..], sep);
      assert pieces == [first] + pieces[1..];
    }
  }

  lemma NoSepIndex(s: string, sep: char)
    requires sep !in s
    ensures IndexOf(s, sep, 0) == |s|
  {
  }

  lemma FirstSepIndex(first: string, rest: string, sep: char)
    requires sep !in first
    ensures IndexOf(first + [sep] + rest, sep, 0) == |first|
  {
    var s := first + [sep] + rest;
    assert forall i :: 0 <= i < |first| ==> s[i] == first[i];
    assert s[|first|] == sep;
  }

  /** `s.replace(target, replacement)` for single characters. */
  function ReplaceChar(s: string, target: char, replacement: char): (r: string)
    ensures |r| == |s|
    ensures forall i :: 0 <= i < |s| ==> r[i] == if s[i] == target then replacement else s[i]
  {
    if s == [] then [] else [if s[0] == target then replacement else s[0]] + ReplaceChar(s[1..], target, replacement)
  }

  /** `s.replace(c, '')`: `s` with every `c` deleted, the rest in order. */
  function RemoveChar(s: string, c: char): (r: string)
    ensures c !in r
    ensures |r| <= |s|
  {
    if s == [] then [] else (if s[0] == c then [] else [s[0]]) + RemoveChar(s[1..], c)
  }

  /** `replace(c, '')` keeps every other character, as often as it occurs. */
  lemma {:induction false} RemoveCharKeeps(s: string, c: char)
    ensures multiset(RemoveChar(s, c)) == multiset(s)[c := 0]
  {
    if s != [] {
      var rest := RemoveChar(s[1..], c);
      RemoveCharKeeps(s[1..], c);
      assert s == [s[0]] + s[1..];
      assert multiset(s) == multiset{s[0]} + multiset(s[1..]);
      if s[0] != c {
        assert RemoveChar(s, c) == [s[0]] + rest;
        assert multiset(RemoveChar(s, c)) == multiset{s[0]} + multiset(rest);
      }
    }
  }

  /** `replace(c, '')` works piece by piece, so the kept characters stay in
      their order. */
  lemma {:induction false} RemoveCharAppend(a: string, b: string, c: char)
    ensures RemoveChar(a + b, c) == RemoveChar(a, c) + RemoveChar(b, c)
  {
    if a != [] {
      RemoveCharAppend(a[1..], b, c);
      assert (a + b)[1..] == a[1..] + b;
    } else {
      assert a + b == b;
    }
  }
}
