/**
  The Python string operations the scraper relies on: `str.strip()`, `in` on
  strings, `str.split(sep)`, `str.join`, `str.replace(c, "")`, `str.endswith`,
  `str.isdigit()`, `int(...)` on a digit string and `str(n)` of a natural number.
 */
module Text {
  import opened Results

  /** The characters `str.isspace()` accepts, which are those `str.strip()` removes. */
  predicate IsSpace(c: char) {
    || c == ' '
    || ('\t' <= c <= '\r')
    || ('\U{1C}' <= c <= '\U{1F}')
    || c == '\U{85}' || c == '\U{A0}' || c == '\U{1680}'
    || ('\U{2000}' <= c <= '\U{200A}')
    || c == '\U{2028}' || c == '\U{2029}' || c == '\U{202F}' || c == '\U{205F}' || c == '\U{3000}'
  }

  /** `s.lstrip()` */
  function TrimStart(s: string): string {
    if |s| > 0 && IsSpace(s[0]) then TrimStart(s[1..]) else s
  }

  /** `s.rstrip()` */
  function TrimEnd(s: string): string {
    if |s| > 0 && IsSpace(s[|s| - 1]) then TrimEnd(s[..|s| - 1]) else s
  }

  /** `s.strip()` */
  function Strip(s: string): string {
    TrimEnd(TrimStart(s))
  }

  /** `lstrip()` removes exactly the leading white space. */
  lemma {:induction false} TrimStartSpec(s: string)
    ensures |TrimStart(s)| <= |s| && TrimStart(s) == s[|s| - |TrimStart(s)|..]
    ensures TrimStart(s) == [] || !IsSpace(TrimStart(s)[0])
    ensures forall i :: 0 <= i < |s| - |TrimStart(s)| ==> IsSpace(s[i])
  {
    if |s| > 0 && IsSpace(s[0]) {
      TrimStartSpec(s[1..]);
    }
  }

  /** `rstrip()` removes exactly the trailing white space. */
  lemma {:induction false} TrimEndSpec(s: string)
    ensures |TrimEnd(s)| <= |s| && TrimEnd(s) == s[..|TrimEnd(s)|]
    ensures TrimEnd(s) == [] || !IsSpace(TrimEnd(s)[|TrimEnd(s)| - 1])
    ensures forall i :: |TrimEnd(s)| <= i < |s| ==> IsSpace(s[i])
  {
    if |s| > 0 && IsSpace(s[|s| - 1]) {
      TrimEndSpec(s[..|s| - 1]);
    }
  }

  /** Where the stripped text starts in `s`: the length of the leading white space. */
  function LeadingSpace(s: string): nat {
    if |s| > 0 && IsSpace(s[0]) then 1 + LeadingSpace(s[1..]) else 0
  }

  lemma {:induction false} LeadingSpaceTrim(s: string)
    ensures LeadingSpace(s) + |TrimStart(s)| == |s|
  {
    if |s| > 0 && IsSpace(s[0]) {
      LeadingSpaceTrim(s[1..]);
    }
  }

  /**
    `strip()` leaves the piece of `s` that starts after its leading white
    space, with no white space at either end; what it removes on both sides
    is white space.
   */
  lemma StripSpec(s: string)
    ensures LeadingSpace(s) + |Strip(s)| <= |s|
    ensures Strip(s) == s[LeadingSpace(s)..LeadingSpace(s) + |Strip(s)|]
    ensures Strip(s) != [] ==> !IsSpace(Strip(s)[0]) && !IsSpace(Strip(s)[|Strip(s)| - 1])
    ensures forall j :: 0 <= j < LeadingSpace(s) ==> IsSpace(s[j])
    ensures forall j :: LeadingSpace(s) + |Strip(s)| <= j < |s| ==> IsSpace(s[j])
  {
    var l := TrimStart(s);
    TrimStartSpec(s);
    TrimEndSpec(l);
    LeadingSpaceTrim(s);
    var r := Strip(s);
    var i := LeadingSpace(s);
    assert r == l[..|r|];
    assert r == s[i..i + |r|];
    forall j | i + |r| <= j < |s| ensures IsSpace(s[j]) {
      assert s[j] == l[j - i];
    }
    if r != [] && |r| < |l| {
      assert r[0] == l[0];
    }
  }

  /** A string without white space at its ends is left alone by `strip()`. */
  lemma StripUnchanged(s: string)
    requires s != [] ==> !IsSpace(s[0]) && !IsSpace(s[|s| - 1])
    ensures Strip(s) == s
  {
  }

  /** `strip()` is idempotent. */
  lemma StripIdempotent(s: string)
    ensures Strip(Strip(s)) == Strip(s)
  {
    StripSpec(s);
    StripUnchanged(Strip(s));
  }

  predicate OccursAt(s: string, sep: string, i: int) {
    0 <= i && i + |sep| <= |s| && s[i..i + |sep|] == sep
  }

  /** `s.find(sep, k)`: an occurrence of `sep` at or after `k`, the leftmost one (see `IndexOfFromLeftmost`). */
  function IndexOfFrom(s: string, sep: string, k: nat): (r: Option<nat>)
    requires k <= |s|
    ensures r.Some? ==> k <= r.value && OccursAt(s, sep, r.value)
    decreases |s| - k
  {
    if k + |sep| > |s| then None
    else if s[k..k + |sep|] == sep then Some(k)
    else IndexOfFrom(s, sep, k + 1)
  }

  /** The occurrence found is the leftmost at or after `k`; None means there is none. */
  lemma {:induction false} IndexOfFromLeftmost(s: string, sep: string, k: nat)
    requires k <= |s|
    ensures IndexOfFrom(s, sep, k).Some? ==> forall i :: k <= i < IndexOfFrom(s, sep, k).value ==> !OccursAt(s, sep, i)
    ensures IndexOfFrom(s, sep, k).None? ==> forall i :: k <= i ==> !OccursAt(s, sep, i)
    decreases |s| - k
  {
    if k + |sep| <= |s| && s[k..k + |sep|] != sep {
      IndexOfFromLeftmost(s, sep, k + 1);
    }
  }

  /** `s.find(sep)`, with None for -1. */
  function IndexOf(s: string, sep: string): Option<nat> {
    IndexOfFrom(s, sep, 0)
  }

  /** Python's `needle in hay` on strings. */
  predicate Contains(hay: string, needle: string) {
    IndexOf(hay, needle).Some?
  }

  lemma ContainsIff(hay: string, needle: string)
    ensures Contains(hay, needle) <==> exists i :: OccursAt(hay, needle, i)
  {
    IndexOfFromLeftmost(hay, needle, 0);
  }

  /** `s.split(sep, 1)`: the text before and after the first `sep`, if any. */
  function SplitOnce(s: string, sep: string): (r: Option<(string, string)>)
    ensures r.None? <==> !Contains(s, sep)
    ensures r.Some? ==> s == r.value.0 + sep + r.value.1
  {
    match IndexOf(s, sep)
    case None => None
    case Some(i) =>
      assert s == s[..i] + s[i..i + |sep|] + s[i + |sep|..];
      Some((s[..i], s[i + |sep|..]))
  }

  /** The separator split at is the first one. */
  lemma SplitOnceFirst(s: string, sep: string)
    ensures SplitOnce(s, sep).Some? ==> forall i :: 0 <= i < |SplitOnce(s, sep).value.0| ==> !OccursAt(s, sep, i)
  {
    IndexOfFromLeftmost(s, sep, 0);
  }

  /** `s.split(sep)` for a non-empty separator: left to right, non-overlapping. */
  function Split(s: string, sep: string): (parts: seq<string>)
    requires |sep| > 0
    ensures |parts| >= 1
    decreases |s|
  {
    match SplitOnce(s, sep)
    case None => [s]
    case Some((before, after)) => [before] + Split(after, sep)
  }

  /** `sep.join(parts)` */
  function Join(parts: seq<string>, sep: string): string {
    if |parts| == 0 then ""
    else if |parts| == 1 then parts[0]
    else parts[0] + sep + Join(parts[1..], sep)
  }

  /** Joining the parts of a split gives back the original string. */
  lemma {:induction false} JoinSplit(s: string, sep: string)
    requires |sep| > 0
    ensures Join(Split(s, sep), sep) == s
    decreases |s|
  {
    match SplitOnce(s, sep)
    case None =>
    case Some((before, after)) =>
      JoinSplit(after, sep);
  }

  /** No part of a split contains the separator. */
  lemma {:induction false} SplitPartsFree(s: string, sep: string)
    requires |sep| > 0
    ensures forall k :: 0 <= k < |Split(s, sep)| ==> !Contains(Split(s, sep)[k], sep)
    decreases |s|
  {
    match SplitOnce(s, sep)
    case None =>
    case Some((before, after)) =>
      SplitPartsFree(after, sep);
      SplitOnceFirst(s, sep);
      var parts := Split(s, sep);
      forall i | OccursAt(before, sep, i) ensures OccursAt(s, sep, i) {
        assert s[i..i + |sep|] == before[i..i + |sep|];
      }
      forall k | 0 <= k < |parts| ensures !Contains(parts[k], sep) {
        if k > 0 {
          assert parts[k] == Split(after, sep)[k - 1];
        }
      }
  }

  /** A split has a second part exactly when the separator occurs. */
  lemma SplitHasSecondPart(s: string, sep: string)
    requires |sep| > 0
    ensures |Split(s, sep)| >= 2 <==> Contains(s, sep)
  {
  }

  /** The first part of a split is the text before the first separator. */
  lemma SplitFirstPart(s: string, sep: string)
    requires |sep| > 0
    ensures Split(s, sep)[0] == (match SplitOnce(s, sep) case None => s case Some(p) => p.0)
  {
  }

  /** `s.replace(c, "")` for a one-character `c`. */
  function Remove(s: string, c: char): (r: string)
    ensures c !in r
    ensures forall x :: x in r <==> x in s && x != c
    ensures |r| <= |s|
  {
    if s == [] then []
    else (if s[0] == c then [] else [s[0]]) + Remove(s[1..], c)
  }

  lemma {:induction false} RemoveAbsent(s: string, c: char)
    requires c !in s
    ensures Remove(s, c) == s
  {
    if s != [] {
      RemoveAbsent(s[1..], c);
    }
  }

  /** `s.split("\n")[0]` */
  function FirstLine(s: string): string {
    Split(s, "\n")[0]
  }

  function StartsWith(s: string, prefix: string): bool {
    |prefix| <= |s| && s[..|prefix|] == prefix
  }

  /** `s.endswith(suffix)` */
  function EndsWith(s: string, suffix: string): bool {
    |suffix| <= |s| && s[|s| - |suffix|..] == suffix
  }

  predicate IsDigit(c: char) {
    '0' <= c <= '9'
  }

  /** `s.isdigit()` on ASCII text: non-empty and all digits. */
  predicate IsDigits(s: string) {
    |s| > 0 && forall i :: 0 <= i < |s| ==> IsDigit(s[i])
  }

  /** `int(s)` for a string of ASCII digits (leading zeros allowed). */
  function DigitsValue(s: string): nat
    requires forall i :: 0 <= i < |s| ==> IsDigit(s[i])
  {
    if s == [] then 0
    else
      assert IsDigit(s[|s| - 1]);
      DigitsValue(s[..|s| - 1]) * 10 + (s[|s| - 1] as int - '0' as int)
  }

  function DigitChar(d: nat): (c: char)
    requires d < 10
    ensures IsDigit(c) && c as int - '0' as int == d
  {
    ('0' as int + d) as char
  }

  /** `str(n)`: decimal, no leading zero. */
  function NatToString(n: nat): (s: string)
    ensures IsDigits(s)
    ensures s[0] == '0' ==> n == 0
  {
    if n < 10 then [DigitChar(n)] else NatToString(n / 10) + [DigitChar(n % 10)]
  }

  /** `int(str(n)) == n` */
  lemma {:induction false} DigitsValueOfNatToString(n: nat)
    ensures DigitsValue(NatToString(n)) == n
  {
    if n >= 10 {
      var s := NatToString(n);
      assert s[..|s| - 1] == NatToString(n / 10);
      DigitsValueOfNatToString(n / 10);
    }
  }

  lemma NatToStringInjective(m: nat, n: nat)
    requires NatToString(m) == NatToString(n)
    ensures m == n
  {
    DigitsValueOfNatToString(m);
    DigitsValueOfNatToString(n);
  }

  /** Python's `s * n`: `n` copies of `s` back to back. */
  function Repeat(s: string, n: nat): string {
    if n == 0 then [] else s + Repeat(s, n - 1)
  }

  lemma {:induction false} RepeatLength(s: string, n: nat)
    ensures |Repeat(s, n)| == n * |s|
  {
    if n > 0 {
      RepeatLength(s, n - 1);
      assert n * |s| == |s| + (n - 1) * |s|;
    }
  }

  /** Removing one period does not change the remainder. */
  lemma ModSub(i: nat, k: nat)
    requires 0 < k <= i
    ensures (i - k) % k == i % k
  {
    var q, r := (i - k) / k, (i - k) % k;
    assert i - k == q * k + r;
    assert i == (q + 1) * k + r;
    ModUnique(i, k, q + 1, r);
  }

  /** The remainder is the unique `r` with `i == q * k + r` and `0 <= r < k`. */
  lemma ModUnique(i: nat, k: nat, q: int, r: int)
    requires 0 < k && 0 <= r < k && i == q * k + r
    ensures i % k == r
  {
    var q', r' := i / k, i % k;
    assert i == q' * k + r';
    if q > q' {
      assert q * k == (q - q') * k + q' * k;
      MulAtLeast(q - q', k);
    } else if q < q' {
      assert q' * k == (q' - q) * k + q * k;
      MulAtLeast(q' - q, k);
    }
  }

  lemma {:induction false} MulAtLeast(d: int, k: nat)
    requires d >= 1
    ensures d * k >= k
    decreases d
  {
    if d > 1 {
      MulAtLeast(d - 1, k);
      assert d * k == (d - 1) * k + k;
    }
  }

  /** Position `i` of `s * n` holds `s[i % len(s)]`. */
  lemma {:induction false} RepeatIndex(s: string, n: nat, i: nat)
    requires i < n * |s|
    ensures |s| > 0 && |Repeat(s, n)| == n * |s|
    ensures Repeat(s, n)[i] == s[i % |s|]
  {
    RepeatLength(s, n);
    if i >= |s| {
      assert n >= 2;
      RepeatIndex(s, n - 1, i - |s|);
      assert Repeat(s, n) == s + Repeat(s, n - 1);
      ModSub(i, |s|);
    } else {
      assert n > 0;
      assert Repeat(s, n) == s + Repeat(s, n - 1);
      assert i % |s| == i;
    }
  }

  /** A repeated character: every position holds that character. */
  lemma {:induction false} RepeatChar(c: char, n: nat)
    ensures |Repeat([c], n)| == n
    ensures forall i :: 0 <= i < n ==> Repeat([c], n)[i] == c
  {
    if n > 0 {
      RepeatChar(c, n - 1);
      assert Repeat([c], n) == [c] + Repeat([c], n - 1);
    }
  }
}
