/**
 * The Python string operations the resolver and the response cleanup rely on:
 * `str.strip()`, `str.split(sep)`, `sep.join(parts)`,
 * `str.find`, `str.rfind`, `startswith`, `endswith` and the `in` substring test.
 * Strings are sequences of code points, as Python's `str` is.
 */
module Text {

  /** Python's `str.isspace()` for one code point: the characters `str.strip()` removes. */
  predicate IsSpace(c: char) {
    var n := c as int;
    n == 0x20 || 0x09 <= n <= 0x0D || 0x1C <= n <= 0x1F || n == 0x85 || n == 0xA0
    || n == 0x1680 || 0x2000 <= n <= 0x200A || n == 0x2028 || n == 0x2029
    || n == 0x202F || n == 0x205F || n == 0x3000
  }

  predicate AllSpace(s: string) {
    forall i :: 0 <= i < |s| ==> IsSpace(s[i])
  }

  /** Neither starts nor ends with whitespace: what `strip()` leaves behind. */
  predicate Trimmed(s: string) {
    |s| == 0 || (!IsSpace(s[0]) && !IsSpace(s[|s| - 1]))
  }

  /** The length of the whitespace run at the front of `s`. */
  function LeadingSpaces(s: string): (n: nat)
    ensures n <= |s|
    ensures AllSpace(s[..n])
    ensures n == |s| || !IsSpace(s[n])
  {
    if |s| > 0 && IsSpace(s[0]) then
      var k := LeadingSpaces(s[1..]);
      assert forall i :: 1 <= i < 1 + k ==> s[i] == s[1..][i - 1];
      1 + k
    else 0
  }

  /** The length of the whitespace run at the back of `s`. */
  function TrailingSpaces(s: string): (n: nat)
    ensures n <= |s|
    ensures AllSpace(s[|s| - n..])
    ensures n == |s| || !IsSpace(s[|s| - n - 1])
  {
    if |s| > 0 && IsSpace(s[|s| - 1]) then
      var k := TrailingSpaces(s[..|s| - 1]);
      assert forall i :: |s| - 1 - k <= i < |s| - 1 ==> s[i] == s[..|s| - 1][i];
      1 + k
    else 0
  }

  /** A text whose first non-space is at `i` has a trailing run that stops before `i`. */
  lemma TrailingBeforeLeading(s: string, i: nat)
    requires i < |s| && !IsSpace(s[i])
    ensures TrailingSpaces(s) < |s| - i
  {
  }

  /** Python's `s.strip()`: the middle of `s` once the outer whitespace runs are gone. */
  function Strip(s: string): (r: string)
    ensures Trimmed(r)
    ensures LeadingSpaces(s) + |r| <= |s|
    ensures r == s[LeadingSpaces(s)..LeadingSpaces(s) + |r|]
    ensures AllSpace(s[LeadingSpaces(s) + |r|..])
  {
    var i := LeadingSpaces(s);
    if i == |s| then
      assert s[i..] == [];
      []
    else
      var j := TrailingSpaces(s);
      TrailingBeforeLeading(s, i);
      var r := s[i..|s| - j];
      assert r[0] == s[i] && r[|r| - 1] == s[|s| - j - 1];
      assert s[i + |r|..] == s[|s| - j..];
      r
  }

  /** A whitespace run of length `n` followed by a non-space (or the end) is the leading run. */
  lemma {:induction false} LeadingSpacesUnique(s: string, n: nat)
    requires n <= |s| && AllSpace(s[..n]) && (n == |s| || !IsSpace(s[n]))
    ensures LeadingSpaces(s) == n
  {
    if n > 0 {
      assert s[..n][0] == s[0];
      assert s[1..][..n - 1] == s[..n][1..];
      LeadingSpacesUnique(s[1..], n - 1);
    }
  }

  /** A whitespace run of length `n` preceded by a non-space (or the start) is the trailing run. */
  lemma {:induction false} TrailingSpacesUnique(s: string, n: nat)
    requires n <= |s| && AllSpace(s[|s| - n..]) && (n == |s| || !IsSpace(s[|s| - n - 1]))
    ensures TrailingSpaces(s) == n
  {
    if n > 0 {
      assert s[|s| - n..][n - 1] == s[|s| - 1];
      var u := s[..|s| - 1];
      assert u[|u| - (n - 1)..] == s[|s| - n..][..n - 1];
      TrailingSpacesUnique(u, n - 1);
    }
  }

  /** The front of `w1 + b + w2` is `w1`. */
  lemma PaddedFront(w1: string, b: string, w2: string)
    ensures (w1 + b + w2)[..|w1|] == w1
  {
  }

  /** The back of `w1 + b + w2` is `w2`. */
  lemma PaddedBack(w1: string, b: string, w2: string)
    ensures (w1 + b + w2)[|w1| + |b|..] == w2
  {
  }

  /** The middle of `w1 + b + w2` is `b`. */
  lemma PaddedMiddle(w1: string, b: string, w2: string)
    ensures (w1 + b + w2)[|w1|..|w1| + |b|] == b
  {
  }

  /** Whitespace around an empty middle strips to nothing. */
  lemma StripPaddedEmpty(w1: string, w2: string)
    requires AllSpace(w1) && AllSpace(w2)
    ensures Strip(w1 + w2) == ""
  {
    var s := w1 + w2;
    assert AllSpace(s) by {
      forall i | 0 <= i < |s| ensures IsSpace(s[i]) {
        if i < |w1| { assert s[i] == w1[i]; } else { assert s[i] == w2[i - |w1|]; }
      }
    }
    assert s[..|s|] == s;
    LeadingSpacesUnique(s, |s|);
  }

  /** Whitespace around a non-empty trimmed middle strips to that middle. */
  lemma StripPaddedNonEmpty(w1: string, b: string, w2: string)
    requires AllSpace(w1) && AllSpace(w2) && Trimmed(b) && |b| > 0
    ensures Strip(w1 + b + w2) == b
  {
    var s := w1 + b + w2;
    PaddedFront(w1, b, w2);
    assert s[|w1|] == b[0];
    LeadingSpacesUnique(s, |w1|);
    PaddedBack(w1, b, w2);
    assert s[|s| - |w2| - 1] == b[|b| - 1];
    TrailingSpacesUnique(s, |w2|);
    PaddedMiddle(w1, b, w2);
  }

  /** `strip()` undoes surrounding a trimmed text with whitespace. */
  lemma StripPadded(w1: string, b: string, w2: string)
    requires AllSpace(w1) && AllSpace(w2) && Trimmed(b)
    ensures Strip(w1 + b + w2) == b
  {
    if |b| == 0 {
      assert w1 + b + w2 == w1 + w2;
      StripPaddedEmpty(w1, w2);
    } else {
      StripPaddedNonEmpty(w1, b, w2);
    }
  }

  /** A trimmed text is left alone by `strip()`. */
  lemma StripTrimmed(s: string)
    requires Trimmed(s)
    ensures Strip(s) == s
  {
    StripPadded("", s, "");
    assert "" + s + "" == s;
  }

  /** `strip()` is idempotent. */
  lemma StripIdempotent(s: string)
    ensures Strip(Strip(s)) == Strip(s)
  {
    StripPadded("", Strip(s), "");
    assert "" + Strip(s) + "" == Strip(s);
  }

  /** No string occurs twice. */
  predicate Distinct(s: seq<string>) {
    forall i, j :: 0 <= i < j < |s| ==> s[i] != s[j]
  }

  /** The tail of a duplicate-free sequence is duplicate-free and does not hold the head. */
  lemma DistinctTail(s: seq<string>)
    requires Distinct(s) && |s| > 0
    ensures Distinct(s[1..]) && s[0] !in s[1..]
  {
    var rest := s[1..];
    forall i, j | 0 <= i < j < |rest| ensures rest[i] != rest[j] {
      assert rest[i] == s[i + 1] && rest[j] == s[j + 1];
    }
    forall k | 0 <= k < |rest| ensures rest[k] != s[0] {
      assert rest[k] == s[k + 1];
    }
  }

  /** Python's `s.find(c)`: the first index of `c`, or -1. */
  function Find(s: string, c: char): (r: int)
    ensures -1 <= r < |s|
    ensures r == -1 <==> c !in s
    ensures r >= 0 ==> s[r] == c && c !in s[..r]
  {
    if |s| == 0 then -1
    else if s[0] == c then 0
    else
      var k := Find(s[1..], c);
      FindPast(s, c, k);
      if k < 0 then -1 else k + 1
  }

  /** What `find` found after the first character, when that character is not `c`, holds for the whole text. */
  lemma FindPast(s: string, c: char, k: int)
    requires |s| > 0 && s[0] != c
    requires -1 <= k < |s| - 1
    requires k == -1 <==> c !in s[1..]
    requires k >= 0 ==> s[1..][k] == c && c !in s[1..][..k]
    ensures k == -1 <==> c !in s
    ensures k >= 0 ==> s[k + 1] == c && c !in s[..k + 1]
  {
    assert s == [s[0]] + s[1..];
    if k >= 0 {
      assert s[..k + 1] == [s[0]] + s[1..][..k];
    }
  }

  /** Python's `s.rfind(c)`: the last index of `c`, or -1. */
  function RFind(s: string, c: char): (r: int)
    ensures -1 <= r < |s|
    ensures r == -1 <==> c !in s
    ensures r >= 0 ==> s[r] == c && c !in s[r + 1..]
  {
    if |s| == 0 then -1
    else if s[|s| - 1] == c then |s| - 1
    else
      var k := RFind(s[..|s| - 1], c);
      RFindPast(s, c, k);
      k
  }

  /** What `rfind` found before the last character, when that character is not `c`, holds for the whole text. */
  lemma RFindPast(s: string, c: char, k: int)
    requires |s| > 0 && s[|s| - 1] != c
    requires -1 <= k < |s| - 1
    requires k == -1 <==> c !in s[..|s| - 1]
    requires k >= 0 ==> s[k] == c && c !in s[..|s| - 1][k + 1..]
    ensures k == -1 <==> c !in s
    ensures k >= 0 ==> c !in s[k + 1..]
  {
    var u := s[..|s| - 1];
    assert s == u + [s[|s| - 1]];
    if k >= 0 {
      assert s[k + 1..] == u[k + 1..] + [s[|s| - 1]];
    }
  }

  /** An occurrence of `c` bounds `find` from above. */
  lemma {:induction false} FindFirst(s: string, c: char, i: nat)
    requires i < |s| && s[i] == c
    ensures 0 <= Find(s, c) <= i
  {
    if s[0] != c {
      assert s[1..][i - 1] == c;
      FindFirst(s[1..], c, i - 1);
    }
  }

  /** An occurrence of `c` with none before it is what `find` returns. */
  lemma {:induction false} FindUnique(s: string, c: char, i: nat)
    requires i < |s| && s[i] == c && c !in s[..i]
    ensures Find(s, c) == i
  {
    if i > 0 {
      assert s[..i][0] == s[0];
      assert s[1..][..i - 1] == s[..i][1..];
      FindUnique(s[1..], c, i - 1);
    }
  }

  /** An occurrence of `c` bounds `rfind` from below. */
  lemma {:induction false} RFindLast(s: string, c: char, i: nat)
    requires i < |s| && s[i] == c
    ensures i <= RFind(s, c)
  {
    if s[|s| - 1] != c {
      assert s[..|s| - 1][i] == c;
      RFindLast(s[..|s| - 1], c, i);
    }
  }

  /** An occurrence of `c` with none after it is what `rfind` returns. */
  lemma {:induction false} RFindUnique(s: string, c: char, i: nat)
    requires i < |s| && s[i] == c && c !in s[i + 1..]
    ensures RFind(s, c) == i
  {
    if i < |s| - 1 {
      assert s[i + 1..][|s| - i - 2] == s[|s| - 1];
      var u := s[..|s| - 1];
      assert u[i + 1..] == s[i + 1..][..|s| - i - 2];
      RFindUnique(u, c, i);
    }
  }

  predicate StartsWith(s: string, prefix: string) {
    |prefix| <= |s| && s[..|prefix|] == prefix
  }

  predicate EndsWith(s: string, suffix: string) {
    |suffix| <= |s| && s[|s| - |suffix|..] == suffix
  }

  /** `t` occurs in `s` starting at index `i`. */
  predicate OccursAt(s: string, t: string, i: int) {
    0 <= i && i + |t| <= |s| && s[i..i + |t|] == t
  }

  /** Python's `t in s` on strings. */
  function Contains(s: string, t: string): (b: bool)
    ensures b <==> exists i :: OccursAt(s, t, i)
  {
    if StartsWith(s, t) then
      assert OccursAt(s, t, 0);
      true
    else if |s| == 0 then
      assert forall i :: !OccursAt(s, t, i);
      false
    else
      var b := Contains(s[1..], t);
      assert forall i :: OccursAt(s[1..], t, i) ==> OccursAt(s, t, i + 1) by {
        forall i | OccursAt(s[1..], t, i) ensures OccursAt(s, t, i + 1) {
          assert s[1..][i..i + |t|] == s[i + 1..i + 1 + |t|];
        }
      }
      assert forall i :: OccursAt(s, t, i) ==> i == 0 || OccursAt(s[1..], t, i - 1) by {
        forall i | OccursAt(s, t, i) && i != 0 ensures OccursAt(s[1..], t, i - 1) {
          assert s[1..][i - 1..i - 1 + |t|] == s[i..i + |t|];
        }
      }
      b
  }

  /** Python's `sep.join(parts)`. */
  function Join(sep: string, parts: seq<string>): string {
    if |parts| == 0 then ""
    else if |parts| == 1 then parts[0]
    else parts[0] + sep + Join(sep, parts[1..])
  }

  /** Python's `s.split(c)` for a one-character separator: the pieces between separators. */
  function Split(s: string, c: char): (r: seq<string>)
    ensures |r| >= 1
    ensures forall k :: 0 <= k < |r| ==> c !in r[k]
    decreases |s|
  {
    var i := Find(s, c);
    if i < 0 then [s] else [s[..i]] + Split(s[i + 1..], c)
  }

  /** One step of a split: the piece before the first separator, then the split of the rest. */
  lemma SplitStep(s: string, c: char)
    ensures Find(s, c) < 0 ==> Split(s, c) == [s]
    ensures Find(s, c) >= 0 ==> Split(s, c) == [s[..Find(s, c)]] + Split(s[Find(s, c) + 1..], c)
  {
  }

  /** One step of a join: the first piece, the separator, then the join of the rest. */
  lemma JoinStep(sep: string, head: string, tail: seq<string>)
    requires |tail| >= 1
    ensures Join(sep, [head] + tail) == head + sep + Join(sep, tail)
  {
    assert ([head] + tail)[1..] == tail;
  }

  /** A split yields one piece more than there are separators. */
  lemma {:induction false} SplitCount(s: string, c: char)
    ensures |Split(s, c)| == multiset(s)[c] + 1
    decreases |s|
  {
    var i := Find(s, c);
    SplitStep(s, c);
    if i >= 0 {
      SplitCount(s[i + 1..], c);
      CountAfterFirst(s, c, i);
    } else {
      CountAbsent(s, c);
    }
  }

  /** Cutting at the first `c` leaves one `c` fewer after the cut than in the whole text. */
  lemma CountAfterFirst(s: string, c: char, i: nat)
    requires i < |s| && s[i] == c && c !in s[..i]
    ensures multiset(s)[c] == multiset(s[i + 1..])[c] + 1
  {
    var head, rest := s[..i], s[i + 1..];
    assert s == head + [c] + rest;
    assert multiset(head)[c] == 0;
  }

  lemma CountAbsent(s: string, c: char)
    requires c !in s
    ensures multiset(s)[c] == 0
  {
  }

  /** Joining the pieces of a split with the separator restores the text. */
  lemma {:induction false} JoinSplit(s: string, c: char)
    ensures Join([c], Split(s, c)) == s
    decreases |s|
  {
    var i := Find(s, c);
    SplitStep(s, c);
    if i >= 0 {
      var head, rest := s[..i], s[i + 1..];
      JoinSplit(rest, c);
      CutAt(s, i);
      JoinAround(c, head, Split(rest, c), rest, s);
    }
  }

  /** A text is what comes before position `i`, the character there, and what comes after. */
  lemma CutAt(s: string, i: nat)
    requires i < |s|
    ensures s == s[..i] + [s[i]] + s[i + 1..]
  {
  }

  lemma JoinAround(c: char, head: string, tail: seq<string>, rest: string, s: string)
    requires |tail| >= 1 && Join([c], tail) == rest && s == head + [c] + rest
    ensures Join([c], [head] + tail) == s
  {
    JoinStep([c], head, tail);
  }

  /** Splitting a join of separator-free pieces gives the pieces back. */
  lemma {:induction false} SplitJoin(parts: seq<string>, c: char)
    requires |parts| >= 1
    requires forall k :: 0 <= k < |parts| ==> c !in parts[k]
    ensures Split(Join([c], parts), c) == parts
  {
    var head := parts[0];
    if |parts| > 1 {
      var tail := parts[1..];
      var rest := Join([c], tail);
      var s := head + [c] + rest;
      assert parts == [head] + tail;
      JoinStep([c], head, tail);
      assert s[|head|] == c;
      assert s[..|head|] == head;
      FindUnique(s, c, |head|);
      assert s[|head| + 1..] == rest;
      SplitStep(s, c);
      SplitJoin(tail, c);
    } else {
      assert Join([c], parts) == head;
      SplitStep(head, c);
    }
  }
}
