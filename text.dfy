/** The few Python string operations the solvers use, on `string`
    (= `seq<char>`): `str.strip`, the `in` operator, `str.endswith`,
    `str.split(sep)[0]`, `str.join` and `str.lower`. */
module Text {

  /** Python's `str.isspace()` for one character: the fixed set of code
      points CPython treats as whitespace. */
  predicate IsSpace(c: char) {
    var n := c as int;
    (9 <= n <= 13) || (28 <= n <= 32) || n == 0x85 || n == 0xA0 || n == 0x1680
    || (0x2000 <= n <= 0x200A) || n == 0x2028 || n == 0x2029 || n == 0x202F
    || n == 0x205F || n == 0x3000
  }

  /** The characters a strip removes: `strip()` removes whitespace,
      `strip("?")` removes one given character. */
  datatype Chars = Whitespace | Just(c: char)

  predicate In(c: char, chars: Chars) {
    match chars
    case Whitespace => IsSpace(c)
    case Just(d) => c == d
  }

  /** Every character of `s` is among `chars`. */
  predicate AllOf(s: string, chars: Chars) {
    forall i :: 0 <= i < |s| ==> In(s[i], chars)
  }

  /** `s.lstrip(chars)`: removes the longest prefix of characters among `chars`. */
  function TrimStart(s: string, chars: Chars): string {
    if s != [] && In(s[0], chars) then TrimStart(s[1..], chars) else s
  }

  /** `s.rstrip(chars)`: removes the longest suffix of characters among `chars`. */
  function TrimEnd(s: string, chars: Chars): string {
    if s != [] && In(s[|s| - 1], chars) then TrimEnd(s[..|s| - 1], chars) else s
  }

  /** `s.lstrip(chars)` is a suffix of `s`; what it removed is all among
      `chars`, and what it kept does not start with one of them. */
  lemma {:induction false} TrimStartSpec(s: string, chars: Chars)
    ensures |TrimStart(s, chars)| <= |s|
    ensures TrimStart(s, chars) == s[|s| - |TrimStart(s, chars)|..]
    ensures forall i :: 0 <= i < |s| - |TrimStart(s, chars)| ==> In(s[i], chars)
    ensures TrimStart(s, chars) == [] || !In(TrimStart(s, chars)[0], chars)
  {
    if s != [] && In(s[0], chars) {
      var t := s[1..];
      TrimStartSpec(t, chars);
      var r := TrimStart(t, chars);
      assert r == TrimStart(s, chars);
      assert t[|t| - |r|..] == s[|s| - |r|..];
      forall i | 1 <= i < |s| - |r| ensures In(s[i], chars) {
        assert s[i] == t[i - 1];
      }
    }
  }

  /** `s.rstrip(chars)` is a prefix of `s`; what it removed is all among
      `chars`, and what it kept does not end with one of them. */
  lemma {:induction false} TrimEndSpec(s: string, chars: Chars)
    ensures var r := TrimEnd(s, chars);
      && r <= s
      && AllOf(s[|r|..], chars)
      && (r == [] || !In(r[|r| - 1], chars))
  {
    if s != [] && In(s[|s| - 1], chars) {
      var t := s[..|s| - 1];
      TrimEndSpec(t, chars);
      var r := TrimEnd(t, chars);
      assert r == TrimEnd(s, chars);
      forall i | 0 <= i < |s| - |r| ensures In(s[|r|..][i], chars) {
        if i < |t| - |r| {
          assert s[|r|..][i] == t[|r|..][i];
        }
      }
    }
  }

  /** `s.strip(chars)`; `Strip(s, Whitespace)` is `s.strip()`. */
  function Strip(s: string, chars: Chars): string {
    TrimEnd(TrimStart(s, chars), chars)
  }

  /** Where `s.strip(chars)` starts in `s`. */
  function StripOffset(s: string, chars: Chars): nat {
    TrimStartSpec(s, chars);
    |s| - |TrimStart(s, chars)|
  }

  /** `s.strip(chars)` is a contiguous piece of `s`. */
  lemma StripIsSlice(s: string, chars: Chars)
    ensures StripOffset(s, chars) + |Strip(s, chars)| <= |s|
    ensures Strip(s, chars) == s[StripOffset(s, chars)..StripOffset(s, chars) + |Strip(s, chars)|]
  {
    var t := TrimStart(s, chars);
    var r := TrimEnd(t, chars);
    TrimStartSpec(s, chars);
    TrimEndSpec(t, chars);
    var k := |s| - |t|;
    assert t == s[k..];
    assert r == t[..|r|];
  }

  /** A string absent from `s` is absent from `s.strip(chars)`. */
  lemma StripKeepsAbsent(s: string, chars: Chars, sub: string)
    requires !Contains(s, sub)
    ensures !Contains(Strip(s, chars), sub)
  {
    StripIsSlice(s, chars);
    var k := StripOffset(s, chars);
    AbsentFromSlice(s, k, k + |Strip(s, chars)|, sub);
  }

  /** `s.strip(chars)` is empty exactly when every character of `s` is among `chars`. */
  lemma StripEmptyIff(s: string, chars: Chars)
    ensures Strip(s, chars) == [] <==> AllOf(s, chars)
  {
    var t := TrimStart(s, chars);
    TrimStartSpec(s, chars);
    TrimEndSpec(t, chars);
    if TrimEnd(t, chars) == [] {
      assert t == [];
      assert s == s[..|s|];
    }
  }

  /** `s.strip(chars)` neither starts nor ends with a character among `chars`. */
  lemma StripEdges(s: string, chars: Chars)
    ensures Strip(s, chars) != [] ==>
      !In(Strip(s, chars)[0], chars) && !In(Strip(s, chars)[|Strip(s, chars)| - 1], chars)
  {
    var t := TrimStart(s, chars);
    var r := TrimEnd(t, chars);
    TrimStartSpec(s, chars);
    TrimEndSpec(t, chars);
    assert r != [] ==> r[0] == t[0];
  }

  /** Stripping an already stripped string changes nothing. */
  lemma {:induction false} StripIdempotent(s: string, chars: Chars)
    ensures Strip(Strip(s, chars), chars) == Strip(s, chars)
  {
    var r := Strip(s, chars);
    StripEdges(s, chars);
    if r != [] {
      assert TrimStart(r, chars) == r;
      assert TrimEnd(r, chars) == r;
    }
  }

  /** Python's `sub in s`. */
  predicate Contains(s: string, sub: string) {
    sub <= s || (s != [] && Contains(s[1..], sub))
  }

  /** A string found in a suffix of `s` is found in `s`. */
  lemma {:induction false} ContainsInSuffix(s: string, k: nat, sub: string)
    requires k <= |s|
    requires Contains(s[k..], sub)
    ensures Contains(s, sub)
    decreases k
  {
    if k > 0 {
      assert s[1..][k - 1..] == s[k..];
      ContainsInSuffix(s[1..], k - 1, sub);
    }
  }

  /** A string found in a prefix of `s` is found in `s`. */
  lemma {:induction false} ContainsInPrefix(s: string, k: nat, sub: string)
    requires k <= |s|
    requires Contains(s[..k], sub)
    ensures Contains(s, sub)
    decreases k
  {
    if sub <= s[..k] {
      assert sub <= s;
    } else {
      assert s[..k][1..] == s[1..][..k - 1];
      ContainsInPrefix(s[1..], k - 1, sub);
    }
  }

  /** `sub in s` is false when `sub` starts at no position of `s`. */
  lemma {:induction false} NotContains(s: string, sub: string)
    requires forall j :: 0 <= j <= |s| ==> !(sub <= s[j..])
    ensures !Contains(s, sub)
  {
    assert s[0..] == s;
    if s != [] {
      forall j | 0 <= j <= |s| - 1 ensures !(sub <= s[1..][j..]) {
        assert s[1..][j..] == s[j + 1..];
      }
      NotContains(s[1..], sub);
    }
  }

  /** Appending a character that `sep` does not hold, and anything after
      it, creates no occurrence of `sep` starting inside `s`. */
  lemma NoOccurrenceAcross(s: string, c: char, t: string, sep: string)
    requires sep != [] && !Contains(s, sep)
    requires forall i :: 0 <= i < |sep| ==> sep[i] != c
    ensures forall j :: 0 <= j <= |s| ==> !(sep <= (s + [c] + t)[j..])
  {
    var u := s + [c] + t;
    forall j | 0 <= j <= |s| ensures !(sep <= u[j..]) {
      if j + |sep| <= |s| {
        if sep <= u[j..] {
          assert sep <= s[j..];
          ContainsInSuffix(s, j, sep);
        }
      } else {
        assert u[j..][|s| - j] == c && sep[|s| - j] != c;
      }
    }
  }

  /** Such an append also leaves `sep` absent. */
  lemma AbsentAfterAppend(s: string, c: char, sep: string)
    requires sep != [] && !Contains(s, sep)
    requires forall i :: 0 <= i < |sep| ==> sep[i] != c
    ensures !Contains(s + [c], sep)
  {
    NoOccurrenceAcross(s, c, [], sep);
    assert s + [c] + [] == s + [c];
    assert (s + [c])[|s| + 1..] == [];
    NotContains(s + [c], sep);
  }

  /** A string absent from `s` is absent from every slice of `s`. */
  lemma AbsentFromSlice(s: string, i: nat, j: nat, sub: string)
    requires i <= j <= |s|
    requires !Contains(s, sub)
    ensures !Contains(s[i..j], sub)
  {
    if Contains(s[i..j], sub) {
      assert s[i..][..j - i] == s[i..j];
      ContainsInPrefix(s[i..], j - i, sub);
      ContainsInSuffix(s, i, sub);
    }
  }

  /** Python's `s.endswith(suffix)`. */
  predicate EndsWith(s: string, suffix: string) {
    |suffix| <= |s| && s[|s| - |suffix|..] == suffix
  }

  /** Python's `s.split(sep)[0]`: the text before the first occurrence of
      `sep`, or all of `s` when `sep` does not occur. Python raises on an
      empty separator. */
  function BeforeFirst(s: string, sep: string): (r: string)
    requires sep != []
    ensures r <= s
    ensures forall j :: 0 <= j < |r| ==> !(sep <= s[j..])
    ensures |r| < |s| ==> sep <= s[|r|..]
  {
    if sep <= s then []
    else if s == [] then []
    else
      var rest := BeforeFirst(s[1..], sep);
      assert forall j :: 1 <= j <= |rest| ==> s[j..] == s[1..][j - 1..];
      [s[0]] + rest
  }

  /** `s.split(sep)[0]` holds no occurrence of `sep`. */
  lemma BeforeFirstHasNoSep(s: string, sep: string)
    requires sep != []
    ensures !Contains(BeforeFirst(s, sep), sep)
  {
    var r := BeforeFirst(s, sep);
    forall j | 0 <= j <= |r| ensures !(sep <= r[j..]) {
      if j < |r| {
        assert r[j..] <= s[j..];
      }
    }
    NotContains(r, sep);
  }

  /** `s.split(sep)[0]` stops at the first place `sep` occurs. */
  lemma BeforeFirstAt(s: string, sep: string, k: nat)
    requires sep != [] && k <= |s|
    requires sep <= s[k..]
    requires forall j :: 0 <= j < k ==> !(sep <= s[j..])
    ensures BeforeFirst(s, sep) == s[..k]
  {
  }

  /** When `sep` does not occur, `s.split(sep)[0]` is `s` itself. */
  lemma BeforeFirstAbsent(s: string, sep: string)
    requires sep != [] && !Contains(s, sep)
    ensures BeforeFirst(s, sep) == s
  {
    var r := BeforeFirst(s, sep);
    if |r| < |s| {
      assert Contains(s[|r|..], sep);
      ContainsInSuffix(s, |r|, sep);
    }
  }

  /** Python's `sep.join(parts)`. */
  function Join(sep: string, parts: seq<string>): string {
    if |parts| == 0 then ""
    else if |parts| == 1 then parts[0]
    else parts[0] + sep + Join(sep, parts[1..])
  }

  /** Joining one more part appends the separator and the part. */
  lemma {:induction false} JoinSnoc(sep: string, parts: seq<string>, p: string)
    requires parts != []
    ensures Join(sep, parts + [p]) == Join(sep, parts) + sep + p
  {
    if |parts| == 1 {
      assert (parts + [p])[1..] == [p];
    } else {
      assert (parts + [p])[1..] == parts[1..] + [p];
      JoinSnoc(sep, parts[1..], p);
    }
  }

  /** ASCII letters to lower case; every other character is kept. */
  function LowerChar(c: char): char {
    if 'A' <= c <= 'Z' then (c as int + 32) as char else c
  }

  predicate IsUpper(c: char) {
    'A' <= c <= 'Z'
  }

  /** Python's `s.lower()`, for the ASCII letters. */
  function Lower(s: string): (r: string)
    ensures |r| == |s|
    ensures forall i :: 0 <= i < |s| ==> r[i] == LowerChar(s[i])
  {
    seq(|s|, i requires 0 <= i < |s| => LowerChar(s[i]))
  }

  /** A lower-cased string holds no upper-case letter. */
  lemma LowerHasNoUpper(s: string)
    ensures forall i :: 0 <= i < |s| ==> !IsUpper(Lower(s)[i])
  {
  }

  /** A string holding an upper-case letter occurs in no string without one. */
  lemma {:induction false} UpperNotContained(s: string, sub: string, j: nat)
    requires j < |sub| && IsUpper(sub[j])
    requires forall i :: 0 <= i < |s| ==> !IsUpper(s[i])
    ensures !Contains(s, sub)
    decreases |s|
  {
    if j < |s| {
      assert !IsUpper(s[j]);
    }
    if s != [] {
      UpperNotContained(s[1..], sub, j);
    }
  }
}
