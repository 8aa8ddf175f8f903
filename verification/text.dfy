/** String primitives with the semantics of the Python `str` operations the
    exporter relies on: `find`, `replace` (all occurrences of one character, or
    the first occurrence of a substring), `strip`, and `str(n)` for a `nat`. */
module Text {
  import opened Wrappers

  /** `sub` occurs in `s` starting at index `i`. */
  predicate OccursAt(s: string, sub: string, i: int) {
    0 <= i && i + |sub| <= |s| && s[i..i + |sub|] == sub
  }

  /** `sub in s`; by the contract of `Find`, exactly when `sub` occurs at some index. */
  predicate Contains(s: string, sub: string) {
    Find(s, sub, 0).Some?
  }

  /** `s.find(sub, start)`: the leftmost occurrence at or after `start`;
      `None` stands for Python's -1 (also when `start` lies past the end). */
  function Find(s: string, sub: string, start: nat): (r: Option<nat>)
    ensures r.Some? ==> start <= r.value && OccursAt(s, sub, r.value)
    ensures r.Some? ==> forall j :: start <= j < r.value ==> !OccursAt(s, sub, j)
    ensures r.None? ==> forall j :: start <= j ==> !OccursAt(s, sub, j)
    decreases |s| - start
  {
    if start + |sub| > |s| then None
    else if s[start..start + |sub|] == sub then Some(start)
    else Find(s, sub, start + 1)
  }

  function Shift(r: Option<nat>, k: nat): Option<nat> {
    match r
    case None => None
    case Some(i) => Some(i + k)
  }

  lemma OccursInSuffix(s: string, sub: string, k: nat, j: nat)
    requires k <= |s|
    ensures OccursAt(s[k..], sub, j) <==> OccursAt(s, sub, k + j)
  {
    if j + |sub| <= |s| - k {
      assert s[k..][j..j + |sub|] == s[k + j..k + j + |sub|];
    }
  }

  /** Searching a string from `k + d` is searching its suffix from `d`. */
  lemma FindInSuffix(s: string, sub: string, k: nat, d: nat)
    requires k <= |s|
    ensures Find(s, sub, k + d) == Shift(Find(s[k..], sub, d), k)
  {
    forall j: nat | true
      ensures OccursAt(s[k..], sub, j) <==> OccursAt(s, sub, k + j)
    {
      OccursInSuffix(s, sub, k, j);
    }
    var whole := Find(s, sub, k + d);
    var part := Find(s[k..], sub, d);
    match part
    case Some(v) =>
      assert OccursAt(s, sub, k + v);
      assert whole.Some? && whole.value <= k + v;
      assert OccursAt(s[k..], sub, whole.value - k);
    case None =>
      forall j | k + d <= j
        ensures !OccursAt(s, sub, j)
      {
        OccursInSuffix(s, sub, k, j - k);
      }
  }

  /** `s.find(c, start)` for a one-character pattern: the first index at or
      after `start` holding `c`. */
  function FindChar(s: string, c: char, start: nat): (r: Option<nat>)
    ensures r.Some? ==> start <= r.value < |s| && s[r.value] == c
    ensures forall k :: start <= k < |s| && (r.None? || k < r.value) ==> s[k] != c
    decreases |s| - start
  {
    if start >= |s| then None
    else if s[start] == c then Some(start)
    else FindChar(s, c, start + 1)
  }

  /** `FindChar` is `Find` with the one-character pattern. */
  lemma {:induction false} FindCharIsFind(s: string, c: char, start: nat)
    ensures FindChar(s, c, start) == Find(s, [c], start)
    decreases |s| - start
  {
    if start < |s| {
      assert s[start..start + 1] == [s[start]];
      FindCharIsFind(s, c, start + 1);
    }
  }

  /** Searching a string from `k + d` is searching its suffix from `d`. */
  lemma FindCharInSuffix(s: string, c: char, k: nat, d: nat)
    requires k <= |s|
    ensures FindChar(s, c, k + d) == Shift(FindChar(s[k..], c, d), k)
  {
    var whole := FindChar(s, c, k + d);
    var part := FindChar(s[k..], c, d);
    match part
    case Some(v) =>
      assert s[k + v] == c;
    case None =>
      assert forall j :: k + d <= j < |s| ==> s[k..][j - k] == s[j];
  }

  /** An occurrence inside a prefix of `s` is an occurrence in `s`. */
  lemma OccursInPrefix(s: string, sub: string, n: nat, j: int)
    requires n <= |s|
    ensures OccursAt(s[..n], sub, j) ==> OccursAt(s, sub, j)
  {
    if OccursAt(s[..n], sub, j) {
      assert s[..n][j..j + |sub|] == s[j..j + |sub|];
    }
  }

  function Count(s: string, c: char): nat {
    if s == [] then 0 else (if s[0] == c then 1 else 0) + Count(s[1..], c)
  }

  lemma {:induction false} CountAppend(a: string, b: string, c: char)
    ensures Count(a + b, c) == Count(a, c) + Count(b, c)
  {
    if a == [] {
      assert a + b == b;
    } else {
      assert (a + b)[1..] == a[1..] + b;
      CountAppend(a[1..], b, c);
    }
  }

  lemma {:induction false} CountAbsent(s: string, c: char)
    ensures c !in s <==> Count(s, c) == 0
  {
    if s != [] {
      CountAbsent(s[1..], c);
      assert s == [s[0]] + s[1..];
    }
  }

  /** `s.replace(c, repl)` for a one-character pattern `c`: every `c` becomes `repl`. */
  function ReplaceChar(s: string, c: char, repl: string): (r: string)
    ensures c !in repl ==> c !in r
    ensures c !in s ==> r == s
  {
    if s == [] then []
    else (if s[0] == c then repl else [s[0]]) + ReplaceChar(s[1..], c, repl)
  }

  lemma {:induction false} ReplaceCharAppend(a: string, b: string, c: char, repl: string)
    ensures ReplaceChar(a + b, c, repl) == ReplaceChar(a, c, repl) + ReplaceChar(b, c, repl)
  {
    if a == [] {
      assert a + b == b;
    } else {
      assert (a + b)[0] == a[0];
      assert (a + b)[1..] == a[1..] + b;
      ReplaceCharAppend(a[1..], b, c, repl);
      var head := if a[0] == c then repl else [a[0]];
      Assoc(head, ReplaceChar(a[1..], c, repl), ReplaceChar(b, c, repl));
    }
  }

  /** On one character: `c` becomes `repl`, any other character stays. With
      `ReplaceCharAppend` this fixes the result on every text. */
  lemma ReplaceCharSingle(x: char, c: char, repl: string)
    ensures ReplaceChar([x], c, repl) == if x == c then repl else [x]
  {
    assert [x][1..] == [];
  }

  /** A one-for-one replacement keeps every position: each `c` becomes the
      new character and every other character stays where it was. */
  lemma {:induction false} ReplaceCharInPlace(s: string, c: char, x: char)
    ensures |ReplaceChar(s, c, [x])| == |s|
    ensures forall k :: 0 <= k < |s| ==> ReplaceChar(s, c, [x])[k] == if s[k] == c then x else s[k]
  {
    if s != [] {
      ReplaceCharInPlace(s[1..], c, x);
      var r := ReplaceChar(s, c, [x]);
      assert r == [if s[0] == c then x else s[0]] + ReplaceChar(s[1..], c, [x]);
    }
  }

  /** Every character of the text contributes its own replacement, in place:
      the text up to any cut and the text after it are replaced separately. */
  lemma ReplaceCharAt(s: string, k: nat, c: char, repl: string)
    requires k < |s|
    ensures ReplaceChar(s, c, repl)
            == ReplaceChar(s[..k], c, repl) + (if s[k] == c then repl else [s[k]]) + ReplaceChar(s[k + 1..], c, repl)
  {
    assert s == s[..k] + [s[k]] + s[k + 1..];
    ReplaceCharAppend(s[..k] + [s[k]], s[k + 1..], c, repl);
    ReplaceCharAppend(s[..k], [s[k]], c, repl);
    ReplaceCharSingle(s[k], c, repl);
  }

  lemma Assoc(a: string, b: string, c: string)
    ensures a + (b + c) == (a + b) + c
  {
  }

  /** Replacing `c` by a text without `x` leaves the number of `x`s unchanged. */
  lemma {:induction false} ReplaceCharCount(s: string, c: char, repl: string, x: char)
    requires x != c && x !in repl
    ensures Count(ReplaceChar(s, c, repl), x) == Count(s, x)
  {
    if s != [] {
      ReplaceCharCount(s[1..], c, repl, x);
      CountAppend(if s[0] == c then repl else [s[0]], ReplaceChar(s[1..], c, repl), x);
      CountAbsent(repl, x);
    }
  }

  /** Every `c` trades its one character for the characters of the
      replacement: deleting shortens, a one-for-one swap keeps the length,
      a two-character replacement lengthens by one per `c`. */
  lemma {:induction false} ReplaceCharLength(s: string, c: char, repl: string)
    ensures |repl| == 0 ==> |ReplaceChar(s, c, repl)| == |s| - Count(s, c)
    ensures |repl| == 1 ==> |ReplaceChar(s, c, repl)| == |s|
    ensures |repl| == 2 ==> |ReplaceChar(s, c, repl)| == |s| + Count(s, c)
  {
    if s != [] {
      ReplaceCharLength(s[1..], c, repl);
    }
  }

  /** `s.replace(pat, repl, 1)`: only the leftmost occurrence of `pat` is replaced. */
  function ReplaceFirst(s: string, pat: string, repl: string): (r: string)
    ensures !Contains(s, pat) ==> r == s
  {
    match Find(s, pat, 0)
    case None => s
    case Some(i) => s[..i] + repl + s[i + |pat|..]
  }

  /** The replacement lands on the leftmost occurrence and nowhere else. */
  lemma ReplaceFirstLeftmost(s: string, pat: string, repl: string, i: nat)
    requires OccursAt(s, pat, i) && forall j :: 0 <= j < i ==> !OccursAt(s, pat, j)
    ensures ReplaceFirst(s, pat, repl) == s[..i] + repl + s[i + |pat|..]
  {
    var f := Find(s, pat, 0);
    assert f.Some? && f.value <= i;
    assert !(f.value < i);
  }

  /** Python's `str.isspace` for one character. */
  predicate IsSpace(c: char) {
    || c == ' ' || c == '\t' || c == '\n' || c == '\r'
    || c == '\U{0B}' || c == '\U{0C}'
    || ('\U{1C}' <= c <= '\U{1F}')
    || c == '\U{85}' || c == '\U{A0}' || c == '\U{1680}'
    || ('\U{2000}' <= c <= '\U{200A}')
    || c == '\U{2028}' || c == '\U{2029}' || c == '\U{202F}' || c == '\U{205F}' || c == '\U{3000}'
  }

  /** The number of whitespace characters `s.lstrip()` removes. */
  function LeadingSpaces(s: string): (n: nat)
    ensures n <= |s|
    ensures forall k :: 0 <= k < n ==> IsSpace(s[k])
    ensures n == |s| || !IsSpace(s[n])
  {
    if s == [] || !IsSpace(s[0]) then 0 else 1 + LeadingSpaces(s[1..])
  }

  /** The number of whitespace characters `s.rstrip()` removes. */
  function TrailingSpaces(s: string): (n: nat)
    ensures n <= |s|
    ensures forall k :: |s| - n <= k < |s| ==> IsSpace(s[k])
    ensures n == |s| || !IsSpace(s[|s| - 1 - n])
  {
    if s == [] || !IsSpace(s[|s| - 1]) then 0 else 1 + TrailingSpaces(s[..|s| - 1])
  }

  /** `s.strip()`: what is left after removing leading and trailing whitespace. */
  function Strip(s: string): (r: string)
    ensures r == [] || (!IsSpace(r[0]) && !IsSpace(r[|r| - 1]))
    ensures (forall k :: 0 <= k < |s| ==> !IsSpace(s[k])) ==> r == s
    ensures forall x :: !IsSpace(x) ==> Count(r, x) == Count(s, x)
  {
    var left := s[LeadingSpaces(s)..];
    var r := left[..|left| - TrailingSpaces(left)];
    StripKeepsCounts(s, LeadingSpaces(s), |left| - TrailingSpaces(left));
    r
  }

  lemma StripKeepsCounts(s: string, i: nat, j: nat)
    requires i <= |s| && j <= |s| - i
    requires forall k :: 0 <= k < i ==> IsSpace(s[k])
    requires forall k :: i + j <= k < |s| ==> IsSpace(s[k])
    ensures forall x :: !IsSpace(x) ==> Count(s[i..][..j], x) == Count(s, x)
  {
    forall x | !IsSpace(x)
      ensures Count(s[i..][..j], x) == Count(s, x)
    {
      assert s == s[..i] + s[i..][..j] + s[i + j..];
      CountAppend(s[..i] + s[i..][..j], s[i + j..], x);
      CountAppend(s[..i], s[i..][..j], x);
      assert x !in s[..i];
      assert x !in s[i + j..];
      CountAbsent(s[..i], x);
      CountAbsent(s[i + j..], x);
    }
  }

  /** A leading whitespace character makes no difference to `strip()`. */
  lemma StripLeadingSpace(c: char, s: string)
    requires IsSpace(c)
    ensures Strip([c] + s) == Strip(s)
  {
    assert ([c] + s)[1..] == s;
    assert ([c] + s)[1 + LeadingSpaces(s)..] == s[LeadingSpaces(s)..];
  }

  /** A text that neither starts nor ends with whitespace is its own `strip()`. */
  lemma StripTrimmed(s: string)
    requires s == [] || (!IsSpace(s[0]) && !IsSpace(s[|s| - 1]))
    ensures Strip(s) == s
  {
    assert s[0..] == s;
    assert s[..|s|] == s;
  }

  predicate IsDigit(c: char) {
    '0' <= c <= '9'
  }

  function DigitChar(d: nat): (c: char)
    requires d < 10
    ensures IsDigit(c) && (c as int) - ('0' as int) == d
  {
    ((d + '0' as int) as char)
  }

  /** The value of a run of decimal digits. */
  function DigitsValue(s: string): nat
    requires forall k :: 0 <= k < |s| ==> IsDigit(s[k])
  {
    if s == [] then 0
    else
      assert IsDigit(s[|s| - 1]);
      10 * DigitsValue(s[..|s| - 1]) + ((s[|s| - 1] as int) - ('0' as int))
  }

  /** `str(n)` for a non-negative integer: its decimal digits, no leading zero. */
  function NatToString(n: nat): (r: string)
    ensures |r| > 0 && forall k :: 0 <= k < |r| ==> IsDigit(r[k])
    ensures |r| > 1 ==> r[0] != '0'
  {
    if n < 10 then [DigitChar(n)] else NatToString(n / 10) + [DigitChar(n % 10)]
  }

  /** Reading the decimal rendering back gives the number. */
  lemma {:induction false} NatToStringRoundTrip(n: nat)
    ensures DigitsValue(NatToString(n)) == n
  {
    if n >= 10 {
      var r := NatToString(n);
      assert r[..|r| - 1] == NatToString(n / 10);
      NatToStringRoundTrip(n / 10);
    }
  }

  lemma NatToStringInjective(m: nat, n: nat)
    ensures NatToString(m) == NatToString(n) <==> m == n
  {
    if NatToString(m) == NatToString(n) {
      NatToStringRoundTrip(m);
      NatToStringRoundTrip(n);
    }
  }
}
