/** Outcomes of an operation that returns a value or an error. */
module Results {
  datatype Option<+T> = None | Some(value: T)

  datatype Result<+T, +E> = Ok(value: T) | Err(error: E)
}

/** Machine integers, durations and powers shared by several components. */
module Numbers {
  const MOD64 := 0x1_0000_0000_0000_0000

  type U64 = n: nat | n < MOD64

  function Inc64(n: U64): U64 { (n + 1) % MOD64 }

  /** Go's `int64` arithmetic. */
  function Wrap64(x: int): int {
    (x + 0x8000_0000_0000_0000) % MOD64 - 0x8000_0000_0000_0000
  }

  /** `time.Second`, in nanoseconds. */
  const SECOND := 1_000_000_000

  function Pow2(n: nat): nat { if n == 0 then 1 else 2 * Pow2(n - 1) }

  lemma {:induction false} Pow2Monotone(a: nat, b: nat)
    requires a <= b
    ensures 1 <= Pow2(a) <= Pow2(b)
  {
    if a > 0 {
      Pow2Monotone(a - 1, b - 1);
    } else if b > 0 {
      Pow2Monotone(0, b - 1);
    }
  }
}

/** Bytes, with bit operations written as arithmetic on their values. */
module ByteStrings {
  type Byte = n: nat | n < 256

  type Bytes = seq<Byte>

  /** Two bytes, the higher first. */
  function Word(high: nat, low: nat): nat { high * 256 + low }
}

/** Go text helpers shared by several components: trimming, lower-casing, fixed-width decimals
    and the order of strings. */
module Text {

  /** Unicode white space, as `strings.TrimSpace` understands it. */
  predicate IsSpace(c: char) {
    var n := c as int;
    || 9 <= n <= 13 || n == 0x20 || n == 0x85 || n == 0xA0 || n == 0x1680 || 0x2000 <= n <= 0x200A
    || n == 0x2028 || n == 0x2029 || n == 0x202F || n == 0x205F || n == 0x3000
  }

  predicate IsSlash(c: char) { c == '/' }

  /** No character at either end satisfies `cut`. */
  predicate Trimmed(s: string, cut: char -> bool) {
    s != [] ==> !cut(s[0]) && !cut(s[|s| - 1])
  }

  function TrimLeft(s: string, cut: char -> bool): string {
    if s != [] && cut(s[0]) then TrimLeft(s[1..], cut) else s
  }

  function TrimRight(s: string, cut: char -> bool): string {
    if s != [] && cut(s[|s| - 1]) then TrimRight(s[..|s| - 1], cut) else s
  }

  function Trim(s: string, cut: char -> bool): string {
    TrimRight(TrimLeft(s, cut), cut)
  }

  /** `strings.TrimSpace`. */
  function TrimSpace(s: string): string {
    Trim(s, IsSpace)
  }

  lemma {:induction false} TrimLeftSpec(s: string, cut: char -> bool)
    ensures var r := TrimLeft(s, cut);
            && |r| <= |s| && r == s[|s| - |r|..] && (r != [] ==> !cut(r[0]))
            && forall i :: 0 <= i < |s| - |r| ==> cut(s[i])
  {
    if s != [] && cut(s[0]) {
      var t := s[1..];
      TrimLeftSpec(t, cut);
      var r := TrimLeft(t, cut);
      assert t[|t| - |r|..] == s[|s| - |r|..];
      forall i | 0 <= i < |s| - |r| ensures cut(s[i]) {
        if i > 0 { assert s[i] == t[i - 1]; }
      }
    }
  }

  lemma {:induction false} TrimRightSpec(s: string, cut: char -> bool)
    ensures var r := TrimRight(s, cut);
            && |r| <= |s| && r == s[..|r|] && (r != [] ==> !cut(r[|r| - 1]))
            && forall i :: |r| <= i < |s| ==> cut(s[i])
  {
    if s != [] && cut(s[|s| - 1]) {
      var t := s[..|s| - 1];
      TrimRightSpec(t, cut);
      var r := TrimRight(t, cut);
      assert t[..|r|] == s[..|r|];
      forall i | |r| <= i < |s| ensures cut(s[i]) {
        if i < |t| { assert s[i] == t[i]; }
      }
    }
  }

  /** Trimming removes characters of `cut` from the ends until neither end is one, and nothing else. */
  lemma TrimSpec(s: string, cut: char -> bool)
    ensures Trimmed(Trim(s, cut), cut)
    ensures forall c :: c in Trim(s, cut) ==> c in s
    ensures forall c :: c in s && !cut(c) ==> c in Trim(s, cut)
    ensures Trimmed(s, cut) ==> Trim(s, cut) == s
  {
    var t := TrimLeft(s, cut);
    TrimLeftSpec(s, cut);
    TrimRightSpec(t, cut);
    var r := TrimRight(t, cut);
    assert forall i :: 0 <= i < |r| ==> r[i] == s[|s| - |t| + i];
    forall c | c in s && !cut(c) ensures c in r {
      var i :| 0 <= i < |s| && s[i] == c;
      assert |s| - |t| <= i < |s| - |t| + |r| by { assert t[i - (|s| - |t|)] == c; }
      assert r[i - (|s| - |t|)] == c;
    }
  }

  lemma TrimSpaceTrimmed(s: string)
    requires Trimmed(s, IsSpace)
    ensures TrimSpace(s) == s
  {
    TrimSpec(s, IsSpace);
  }

  ghost predicate AllSpace(s: string) { forall i :: 0 <= i < |s| ==> IsSpace(s[i]) }

  lemma {:induction false} TrimLeftPadded(pad: string, s: string)
    requires AllSpace(pad)
    ensures TrimLeft(pad + s, IsSpace) == TrimLeft(s, IsSpace)
  {
    hide IsSpace;
    if pad == "" {
      assert pad + s == s;
    } else {
      TrimLeftPadded(pad[1..], s);
      assert (pad + s)[1..] == pad[1..] + s;
    }
  }

  lemma {:induction false} TrimRightPadded(s: string, pad: string)
    requires AllSpace(pad)
    ensures TrimRight(s + pad, IsSpace) == TrimRight(s, IsSpace)
  {
    hide IsSpace;
    if pad == "" {
      assert s + pad == s;
    } else {
      TrimRightPadded(s, pad[..|pad| - 1]);
      assert (s + pad)[..|s + pad| - 1] == s + pad[..|pad| - 1];
    }
  }

  /** A text between white space is what trimming brings out. */
  lemma TrimPadded(left: string, s: string, right: string)
    requires AllSpace(left) && AllSpace(right) && Trimmed(s, IsSpace)
    ensures TrimSpace(left + s + right) == s
  {
    hide IsSpace;
    assert left + s + right == left + (s + right);
    TrimLeftPadded(left, s + right);
    TrimRightPadded(s, right);
    TrimSpaceTrimmed(s);
    if s == "" {
      assert s + right == right + "";
      TrimLeftPadded(right, "");
    }
  }

  /** Trimming reaches no further than a text in the middle whose ends are not white space. */
  lemma TrimAround(left: string, s: string, right: string)
    requires s != "" && !IsSpace(s[0]) && !IsSpace(s[|s| - 1])
    ensures exists i, j :: 0 <= i <= |left| && 0 <= j <= |right|
                           && TrimSpace(left + s + right) == left[i..] + s + right[..j]
  {
    hide IsSpace;
    var all := left + s + right;
    var t := TrimLeft(all, IsSpace);
    TrimLeftSpec(all, IsSpace);
    var i := |all| - |t|;
    assert i <= |left| by { assert all[|left|] == s[0]; }
    assert t == left[i..] + s + right;
    var u := TrimRight(t, IsSpace);
    TrimRightSpec(t, IsSpace);
    var j := |u| - |left[i..] + s|;
    assert j >= 0 by { assert t[|left[i..] + s| - 1] == s[|s| - 1]; }
    assert u == left[i..] + s + right[..j];
  }

  predicate Blank(s: string) { TrimSpace(s) == "" }

  function LowerChar(c: char): char {
    if 'A' <= c <= 'Z' then (c as int + 32) as char else c
  }

  /** `strings.ToLower`, on ASCII letters. */
  function ToLower(s: string): (r: string)
    ensures |r| == |s|
    ensures forall i :: 0 <= i < |s| ==> r[i] == LowerChar(s[i])
  {
    seq(|s|, i requires 0 <= i < |s| => LowerChar(s[i]))
  }

  /** `strings.ReplaceAll(s, old, new)` for one-character strings. */
  function ReplaceChar(s: string, from: char, to: char): (r: string)
    ensures |r| == |s|
    ensures forall i :: 0 <= i < |s| ==> r[i] == if s[i] == from then to else s[i]
  {
    seq(|s|, i requires 0 <= i < |s| => if s[i] == from then to else s[i])
  }

  /** `strings.ToLower(strings.TrimSpace(s))`. */
  function LowerTrim(s: string): string { ToLower(TrimSpace(s)) }

  /** Lower-casing takes each capital letter to its small one. */
  lemma LowerAlphabet(i: nat)
    requires i < 26
    ensures LowerChar("ABCDEFGHIJKLMNOPQRSTUVWXYZ"[i]) == "abcdefghijklmnopqrstuvwxyz"[i]
  {}

  lemma LowerKeepsSpace(c: char)
    ensures IsSpace(LowerChar(c)) == IsSpace(c)
  {}

  lemma LowerTrimIdempotent(s: string)
    ensures LowerTrim(LowerTrim(s)) == LowerTrim(s)
  {
    var t := TrimSpace(s);
    TrimSpec(s, IsSpace);
    var u := ToLower(t);
    if t != "" {
      LowerKeepsSpace(t[0]);
      LowerKeepsSpace(t[|t| - 1]);
    }
    TrimSpaceTrimmed(u);
    assert ToLower(u) == u;
  }

  /** Replacing one character that is no white space by another commutes with trimming. */
  lemma {:induction false} TrimLeftReplace(s: string, from: char, to: char)
    requires !IsSpace(from) && !IsSpace(to)
    ensures TrimLeft(ReplaceChar(s, from, to), IsSpace) == ReplaceChar(TrimLeft(s, IsSpace), from, to)
  {
    hide IsSpace;
    if s != [] && IsSpace(s[0]) {
      TrimLeftReplace(s[1..], from, to);
      assert ReplaceChar(s, from, to)[1..] == ReplaceChar(s[1..], from, to);
    }
  }

  lemma {:induction false} TrimRightReplace(s: string, from: char, to: char)
    requires !IsSpace(from) && !IsSpace(to)
    ensures TrimRight(ReplaceChar(s, from, to), IsSpace) == ReplaceChar(TrimRight(s, IsSpace), from, to)
  {
    hide IsSpace;
    if s != [] && IsSpace(s[|s| - 1]) {
      TrimRightReplace(s[..|s| - 1], from, to);
      assert ReplaceChar(s, from, to)[..|s| - 1] == ReplaceChar(s[..|s| - 1], from, to);
    }
  }

  lemma LowerTrimReplace(s: string)
    ensures LowerTrim(ReplaceChar(s, '-', '_')) == ReplaceChar(LowerTrim(s), '-', '_')
  {
    TrimLeftReplace(s, '-', '_');
    TrimRightReplace(TrimLeft(s, IsSpace), '-', '_');
    var t := TrimSpace(s);
    assert ToLower(ReplaceChar(t, '-', '_')) == ReplaceChar(ToLower(t), '-', '_');
  }

  predicate IsLowerHex(c: char) { '0' <= c <= '9' || 'a' <= c <= 'f' }

  /** 64 lower-case hexadecimal characters. */
  predicate IsSHA256(s: string) {
    |s| == 64 && forall c :: c in s ==> IsLowerHex(c)
  }

  /** A text that lower-cases to hexadecimal once trimmed holds no colon. */
  lemma HexHasNoColon(s: string)
    requires IsSHA256(LowerTrim(s))
    ensures ':' !in s
  {
    if ':' in s {
      var t := TrimSpace(s);
      TrimSpec(s, IsSpace);
      var i :| 0 <= i < |t| && t[i] == ':';
      LowerKeepsColon(t, i);
    }
  }

  lemma LowerKeepsColon(t: string, i: nat)
    requires i < |t| && t[i] == ':'
    ensures !IsSHA256(ToLower(t))
  {
    var u := ToLower(t);
    assert u[i] == LowerChar(':') == ':';
    assert u[i] in u && !IsLowerHex(u[i]);
  }

  const DIGITS := "0123456789"

  function Pow10(width: nat): nat { if width == 0 then 1 else 10 * Pow10(width - 1) }

  lemma Pow10Of20()
    ensures Pow10(20) == 100_000_000_000_000_000_000
  {
    assert Pow10(5) == 100_000 by { assert Pow10(2) == 100; }
    assert Pow10(10) == 10_000_000_000 by { assert Pow10(7) == 10_000_000; }
    assert Pow10(15) == 1_000_000_000_000_000 by { assert Pow10(12) == 1_000_000_000_000; }
    assert Pow10(17) == 100_000_000_000_000_000;
  }

  /** The last `width` decimal digits of `n`, zero-padded: `%0<width>d` when `n` fits. */
  function Decimal(n: nat, width: nat): (r: string)
    ensures |r| == width
  {
    if width == 0 then "" else Decimal(n / 10, width - 1) + [DIGITS[n % 10]]
  }

  lemma {:induction false} DecimalInjective(m: nat, n: nat, width: nat)
    requires m < Pow10(width) && n < Pow10(width)
    requires Decimal(m, width) == Decimal(n, width)
    ensures m == n
  {
    if width != 0 {
      var a, b := Decimal(m, width), Decimal(n, width);
      assert a[..width - 1] == Decimal(m / 10, width - 1) && b[..width - 1] == Decimal(n / 10, width - 1);
      assert a[width - 1] == DIGITS[m % 10] && b[width - 1] == DIGITS[n % 10];
      DecimalInjective(m / 10, n / 10, width - 1);
    }
  }

  /** Go's `<` on strings. */
  predicate Less(a: string, b: string) {
    b != "" && (a == "" || a[0] < b[0] || (a[0] == b[0] && Less(a[1..], b[1..])))
  }

  lemma {:induction false} LessTotal(a: string, b: string)
    ensures Less(a, b) || Less(b, a) || a == b
  {
    if a != "" && b != "" && a[0] == b[0] {
      LessTotal(a[1..], b[1..]);
      assert a == [a[0]] + a[1..] && b == [b[0]] + b[1..];
    }
  }

  lemma {:induction false} LessAsymmetric(a: string, b: string)
    requires Less(a, b)
    ensures !Less(b, a) && a != b
  {
    if a != "" && a[0] == b[0] {
      LessAsymmetric(a[1..], b[1..]);
    }
  }

  lemma {:induction false} LessTransitive(a: string, b: string, c: string)
    requires Less(a, b) && Less(b, c)
    ensures Less(a, c)
  {
    if a != "" && a[0] == b[0] == c[0] {
      LessTransitive(a[1..], b[1..], c[1..]);
    }
  }

  predicate StrictlySorted(s: seq<string>) {
    forall i, j :: 0 <= i < j < |s| ==> Less(s[i], s[j])
  }

  /** A strictly sorted sequence is determined by its elements. */
  lemma {:induction false} SortedUnique(s: seq<string>, t: seq<string>)
    requires StrictlySorted(s) && StrictlySorted(t)
    requires forall x :: x in s <==> x in t
    ensures s == t
  {
    if s == [] {
      if t != [] {
        SomeMember(t);
        assert false;
      }
    } else {
      SomeMember(s);
      FirstIsLeast(s, t);
      FirstIsLeast(t, s);
      LessTotal(s[0], t[0]);
      forall x ensures x in s[1..] <==> x in t[1..] {
        TailMember(s, x);
        TailMember(t, x);
      }
      SortedUnique(s[1..], t[1..]);
      assert s == [s[0]] + s[1..] && t == [t[0]] + t[1..];
    }
  }

  lemma SomeMember(s: seq<string>)
    requires s != []
    ensures exists x :: x in s
  {
    assert s[0] in s;
  }

  lemma FirstIsLeast(s: seq<string>, t: seq<string>)
    requires s != [] && t != [] && StrictlySorted(t)
    requires forall x :: x in s <==> x in t
    ensures !Less(s[0], t[0])
  {
    assert s[0] in t;
    var i :| 0 <= i < |t| && t[i] == s[0];
    if i == 0 {
      if Less(s[0], t[0]) { LessAsymmetric(s[0], t[0]); }
    } else {
      LessAsymmetric(t[0], t[i]);
    }
  }

  lemma TailMember(s: seq<string>, x: string)
    requires s != [] && StrictlySorted(s)
    ensures x in s[1..] <==> x in s && x != s[0]
  {
    if x in s[1..] {
      var i :| 1 <= i < |s| && s[i] == x;
      LessAsymmetric(s[0], s[i]);
    }
    assert s == [s[0]] + s[1..];
  }

  /** Inserts a key that is not there yet; `sort.Strings` over a growing list of distinct keys. */
  method Insert(s: seq<string>, x: string) returns (r: seq<string>)
    requires StrictlySorted(s) && x !in s
    ensures StrictlySorted(r)
    ensures forall y :: y in r <==> y == x || y in s
    ensures |r| == |s| + 1
  {
    var i := 0;
    while i < |s| && Less(s[i], x)
      invariant 0 <= i <= |s|
      invariant forall k :: 0 <= k < i ==> Less(s[k], x)
    {
      i := i + 1;
    }
    forall k | i <= k < |s| ensures Less(x, s[k]) {
      LessTotal(x, s[i]);
      if k > i { LessTransitive(x, s[i], s[k]); }
    }
    r := s[..i] + [x] + s[i..];
    assert forall y :: y in s <==> y in s[..i] || y in s[i..] by { assert s == s[..i] + s[i..]; }
  }

  /** The sorted keys of a set: ranging over a map's keys and `sort.Strings`. */
  method SortedKeys(keys: set<string>) returns (r: seq<string>)
    ensures StrictlySorted(r)
    ensures forall x :: x in r <==> x in keys
    ensures |r| == |keys|
  {
    r := [];
    var rest := keys;
    while rest != {}
      invariant rest <= keys && StrictlySorted(r)
      invariant forall x :: x in r <==> x in keys - rest
      invariant |r| + |rest| == |keys|
      decreases rest
    {
      var x :| x in rest;
      r := Insert(r, x);
      rest := rest - {x};
    }
  }

  /** The trimmed texts of a list, blanks and repetitions skipped, in order of first appearance. */
  function DistinctTrimmed(raw: seq<string>): seq<string> {
    if raw == [] then []
    else
      var before, t := DistinctTrimmed(raw[..|raw| - 1]), TrimSpace(raw[|raw| - 1]);
      if t == "" || t in before then before else before + [t]
  }

  /** A nonempty text that some entry of the list trims to. */
  ghost predicate Listed(x: string, raw: seq<string>) {
    x != "" && exists i :: 0 <= i < |raw| && TrimSpace(raw[i]) == x
  }

  lemma ListedSnoc(x: string, raw: seq<string>)
    requires raw != []
    ensures Listed(x, raw) <==> Listed(x, raw[..|raw| - 1]) || (x != "" && x == TrimSpace(raw[|raw| - 1]))
  {
    hide TrimSpace;
    var n := |raw| - 1;
    if Listed(x, raw) {
      var i :| 0 <= i < |raw| && TrimSpace(raw[i]) == x;
      if i < n { assert raw[..n][i] == raw[i]; }
    }
    if Listed(x, raw[..n]) {
      var i :| 0 <= i < n && TrimSpace(raw[..n][i]) == x;
      assert raw[i] == raw[..n][i];
    }
  }

  /** Nothing is lost or made up. */
  lemma {:induction false} DistinctTrimmedMembers(raw: seq<string>, x: string)
    ensures x in DistinctTrimmed(raw) <==> Listed(x, raw)
  {
    hide TrimSpace, Listed;
    if raw == [] {
      NothingListed(x);
    } else {
      DistinctTrimmedMembers(raw[..|raw| - 1], x);
      ListedSnoc(x, raw);
    }
  }

  lemma NothingListed(x: string)
    ensures !Listed(x, [])
  {}

  /** Of two texts in the result, the one in front came up before the other did. */
  lemma {:induction false} DistinctTrimmedOrder(raw: seq<string>, i: nat, j: nat, q: nat)
    requires i < j < |DistinctTrimmed(raw)| && q < |raw| && TrimSpace(raw[q]) == DistinctTrimmed(raw)[j]
    ensures Listed(DistinctTrimmed(raw)[i], raw[..q])
  {
    hide TrimSpace, Listed;
    var n := |raw| - 1;
    var before := DistinctTrimmed(raw[..n]);
    if j < |before| && q < n {
      DistinctTrimmedOrder(raw[..n], i, j, q);
      assert raw[..n][..q] == raw[..q];
    } else if q < n {
      ListedAt(raw[..n], q, DistinctTrimmed(raw)[j]);
      DistinctTrimmedSpec(raw);
      DistinctTrimmedMembers(raw[..n], DistinctTrimmed(raw)[j]);
    } else {
      assert before[i] in before;
      DistinctTrimmedMembers(raw[..n], before[i]);
    }
  }

  lemma ListedAt(raw: seq<string>, q: nat, x: string)
    requires q < |raw| && TrimSpace(raw[q]) == x != ""
    ensures Listed(x, raw)
  {}

  /** Every entry is a trimmed, nonempty text, and none occurs twice. */
  ghost predicate CleanList(r: seq<string>) {
    && (forall i :: 0 <= i < |r| ==> r[i] != "" && TrimSpace(r[i]) == r[i])
    && (forall i, j :: 0 <= i < j < |r| ==> r[i] != r[j])
  }

  lemma {:induction false} DistinctTrimmedSpec(raw: seq<string>)
    ensures CleanList(DistinctTrimmed(raw))
  {
    hide TrimSpace;
    if raw != [] {
      var before, t := DistinctTrimmed(raw[..|raw| - 1]), TrimSpace(raw[|raw| - 1]);
      DistinctTrimmedSpec(raw[..|raw| - 1]);
      TrimIdempotent(raw[|raw| - 1]);
      if t != "" && t !in before { assert CleanList(before + [t]); }
    }
  }

  lemma TrimIdempotent(s: string)
    ensures TrimSpace(TrimSpace(s)) == TrimSpace(s)
  {
    TrimSpec(s, IsSpace);
    TrimSpaceTrimmed(TrimSpace(s));
  }

  /** A clean list is left as it is. */
  lemma {:induction false} CleanFixpoint(r: seq<string>)
    requires CleanList(r)
    ensures DistinctTrimmed(r) == r
  {
    hide TrimSpace;
    if r != [] {
      var n := |r| - 1;
      CleanFixpoint(r[..n]);
      assert r == r[..n] + [r[n]];
    }
  }

  function InsertText(sorted: seq<string>, x: string): seq<string> {
    if sorted != [] && Less(x, sorted[|sorted| - 1])
    then InsertText(sorted[..|sorted| - 1], x) + [sorted[|sorted| - 1]]
    else sorted + [x]
  }

  /** `sort.Strings`. */
  function SortTexts(s: seq<string>): seq<string> {
    if s == [] then [] else InsertText(SortTexts(s[..|s| - 1]), s[|s| - 1])
  }

  lemma {:induction false} InsertTextKeeps(sorted: seq<string>, x: string)
    ensures multiset(InsertText(sorted, x)) == multiset(sorted) + multiset{x}
  {
    if sorted != [] && Less(x, sorted[|sorted| - 1]) {
      var n := |sorted| - 1;
      InsertTextKeeps(sorted[..n], x);
      assert sorted == sorted[..n] + [sorted[n]];
    }
  }

  lemma AppendLast(sorted: seq<string>, x: string)
    requires StrictlySorted(sorted) && forall y :: y in sorted ==> Less(y, x)
    ensures StrictlySorted(sorted + [x])
  {
    hide Less;
    forall i, j | 0 <= i < j < |sorted + [x]| ensures Less((sorted + [x])[i], (sorted + [x])[j]) {
      assert sorted[i] in sorted;
    }
  }

  lemma {:induction false} InsertTextSorts(sorted: seq<string>, x: string)
    requires StrictlySorted(sorted) && x !in sorted
    ensures StrictlySorted(InsertText(sorted, x))
  {
    if sorted != [] {
      var n := |sorted| - 1;
      var last := sorted[n];
      LessTotal(x, last);
      if Less(x, last) {
        InsertTextSorts(sorted[..n], x);
        InsertTextKeeps(sorted[..n], x);
        var front := InsertText(sorted[..n], x);
        forall y | y in front ensures Less(y, last) {
          assert y in multiset(front);
          assert y == x || y in sorted[..n];
        }
        AppendLast(front, last);
      } else {
        forall y | y in sorted ensures Less(y, x) {
          var k :| 0 <= k < |sorted| && sorted[k] == y;
          if k < n { LessTransitive(y, last, x); }
        }
        AppendLast(sorted, x);
      }
    }
  }

  /** Sorting keeps every text as often as it was there. */
  lemma {:induction false} SortTextsKeeps(s: seq<string>)
    ensures multiset(SortTexts(s)) == multiset(s)
  {
    hide InsertText;
    if s != [] {
      var n := |s| - 1;
      SortTextsKeeps(s[..n]);
      InsertTextKeeps(SortTexts(s[..n]), s[n]);
      SnocTexts(s);
    }
  }

  lemma SnocTexts(s: seq<string>)
    requires s != []
    ensures multiset(s) == multiset(s[..|s| - 1]) + multiset{s[|s| - 1]}
  {
    assert s == s[..|s| - 1] + [s[|s| - 1]];
  }

  lemma SortTextsMembers(s: seq<string>, x: string)
    ensures x in SortTexts(s) <==> x in s
  {
    SortTextsKeeps(s);
    assert x in SortTexts(s) <==> x in multiset(SortTexts(s));
  }

  /** Distinct texts come out in strictly rising order. */
  lemma {:induction false} SortTextsSorts(s: seq<string>)
    requires forall i, j :: 0 <= i < j < |s| ==> s[i] != s[j]
    ensures StrictlySorted(SortTexts(s))
  {
    if s != [] {
      var n := |s| - 1;
      SortTextsSorts(s[..n]);
      SortTextsMembers(s[..n], s[n]);
      InsertTextSorts(SortTexts(s[..n]), s[n]);
    }
  }
}
