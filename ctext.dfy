/** C-library text conventions the codec relies on: isspace, the decimal
    rendering of printf's %d, atoi, the int-to-size_t conversion, and the
    splitting of a C string on a separator.  Strings are sequences of char;
    a C string is one without a NUL character (the NUL ends it). */
module CText {

  /** The width of size_t on the LP64 platforms the library is built for. */
  const SIZE_T_MODULUS: int := 0x1_0000_0000_0000_0000
  /** (size_t)-1, the decoder's length sentinel for the nil vector. */
  const SIZE_MAX: nat := SIZE_T_MODULUS - 1
  /** size_t values. */
  type SizeT = n: nat | n < SIZE_T_MODULUS

  const INT_MODULUS: int := 0x1_0000_0000
  const INT_MAX: int := 0x7fff_ffff

  /** An optional value: None stands for a NULL pointer. */
  datatype Option<T> = None | Some(value: T)

  /** Contents of a NUL-terminated C string, up to (not including) the NUL. */
  type CString = s: string | '\0' !in s witness ""

  /** isspace() in the C locale. */
  predicate IsSpace(c: char) {
    c == ' ' || c == '\t' || c == '\n' || c == '\r' || c == '\U{0B}' || c == '\U{0C}'
  }

  predicate IsDigit(c: char) {
    '0' <= c <= '9'
  }

  predicate AllSpaces(s: string) {
    forall i :: 0 <= i < |s| ==> IsSpace(s[i])
  }

  /** `n` blanks: the padding printf puts in front of a right-justified field. */
  function Spaces(n: nat): (r: string)
    ensures |r| == n && AllSpaces(r)
    ensures forall i :: 0 <= i < n ==> r[i] == ' '
  {
    if n == 0 then "" else " " + Spaces(n - 1)
  }

  /** The field `t` right-justified to `width` columns, as a printf width does. */
  function Pad(t: string, width: nat): (r: string)
    ensures |r| == if |t| < width then width else |t|
    ensures r[|r| - |t|..] == t && AllSpaces(r[..|r| - |t|])
  {
    if |t| < width then Spaces(width - |t|) + t else t
  }

  /** What remains of `s` once its leading whitespace is skipped. */
  function SkipSpaces(s: string): (r: string)
    ensures |r| <= |s|
    ensures r == [] || !IsSpace(r[0])
  {
    if s != [] && IsSpace(s[0]) then SkipSpaces(s[1..]) else s
  }

  /** SkipSpaces drops a prefix of whitespace and keeps the rest as it is. */
  lemma {:induction false} SkipSpacesSuffix(s: string)
    ensures var r := SkipSpaces(s); r == s[|s| - |r|..] && AllSpaces(s[..|s| - |r|])
  {
    if s != [] && IsSpace(s[0]) {
      SkipSpacesSuffix(s[1..]);
      var r := SkipSpaces(s);
      assert s[1..][|s| - 1 - |r|..] == s[|s| - |r|..];
      assert s[..|s| - |r|] == [s[0]] + s[1..][..|s| - 1 - |r|];
    }
  }

  lemma {:induction false} SkipSpacesPrefix(w: string, x: string)
    requires AllSpaces(w)
    ensures SkipSpaces(w + x) == SkipSpaces(x)
  {
    if w != [] {
      assert (w + x)[0] == w[0] && IsSpace(w[0]);
      assert (w + x)[1..] == w[1..] + x;
      SkipSpacesPrefix(w[1..], x);
    } else {
      assert w + x == x;
    }
  }

  lemma ConcatAssoc(a: string, b: string, c: string)
    ensures (a + b) + c == a + (b + c)
  {
  }

  function Min(a: nat, b: nat): nat {
    if a < b then a else b
  }

  // ---------------------------------------------------------------- arithmetic

  /** A character in neither part is not in their concatenation. */
  lemma NotInConcat(c: char, a: string, b: string)
    requires c !in a && c !in b
    ensures c !in a + b
  {
  }

  lemma MulMono(i: nat, j: nat, c: nat)
    requires i <= j
    ensures i * c <= j * c
  {
    assert j * c - i * c == (j - i) * c;
  }

  lemma DivUnique(a: int, d: int, q: int, r: int)
    requires d > 0 && 0 <= r < d && a == q * d + r
    ensures a / d == q
  {
    var q', r' := a / d, a % d;
    assert a == q' * d + r';
    assert (q - q') * d == r' - r;
    if q > q' {
      MulAtLeast(q - q', d);
    } else if q < q' {
      MulAtLeast(q' - q, d);
    }
  }

  lemma MulAtLeast(k: int, d: int)
    requires k >= 1 && d > 0
    ensures k * d >= d
  {
  }

  /** Adding one divisor moves the quotient by one and keeps the remainder. */
  lemma DivModShift(x: nat, d: nat)
    requires d > 0
    ensures (x + d) / d == x / d + 1 && (x + d) % d == x % d
  {
    DivUnique(x + d, d, x / d + 1, x % d);
  }

  /** Block k, position i of a layout with blocks of s. */
  lemma BlockDivMod(k: nat, s: nat, i: nat)
    requires i < s
    ensures (k * s + i) / s == k && (k * s + i) % s == i
  {
    DivUnique(k * s + i, s, k, i);
  }

  /** The whole blocks of n fit into n. */
  lemma WholeBlocks(n: nat, s: nat)
    requires s > 0
    ensures (n / s) * s <= n < (n / s + 1) * s
  {
    assert n == (n / s) * s + n % s;
    assert (n / s + 1) * s == (n / s) * s + s;
  }

  /** Number of occurrences of `c` in `s`. */
  function Count(s: string, c: char): (r: nat)
    ensures r <= |s|
  {
    if s == [] then 0 else (if s[0] == c then 1 else 0) + Count(s[1..], c)
  }

  lemma {:induction false} CountAbsent(s: string, c: char)
    requires c !in s
    ensures Count(s, c) == 0
  {
    if s != [] {
      assert forall x :: x in s[1..] ==> x in s;
      CountAbsent(s[1..], c);
    }
  }

  lemma {:induction false} CountAppend(a: string, b: string, c: char)
    ensures Count(a + b, c) == Count(a, c) + Count(b, c)
  {
    if a != [] {
      assert (a + b)[0] == a[0];
      assert (a + b)[1..] == a[1..] + b;
      CountAppend(a[1..], b, c);
    } else {
      assert a + b == b;
    }
  }

  /** Index of the first `c` in `s`, or |s| when there is none. */
  function IndexOf(s: string, c: char): (k: nat)
    ensures k <= |s|
    ensures k < |s| ==> s[k] == c
    ensures c !in s[..k]
  {
    if s == [] then 0 else if s[0] == c then 0 else 1 + IndexOf(s[1..], c)
  }

  /** IndexOf finds the first occurrence. */
  lemma {:induction false} IndexOfFirst(s: string, c: char, k: nat)
    requires k < |s| && s[k] == c && c !in s[..k]
    ensures IndexOf(s, c) == k
  {
    if k > 0 {
      assert s[0] in s[..k];
      assert s[1..][..k - 1] == s[1..k];
      assert forall x :: x in s[1..k] ==> x in s[..k];
      IndexOfFirst(s[1..], c, k - 1);
    }
  }

  /** The C-string view of a buffer: everything before the first NUL. */
  function CStr(s: string): (r: CString)
    ensures |r| <= |s| && r == s[..|r|]
    ensures |r| < |s| ==> s[|r|] == '\0'
  {
    s[..IndexOf(s, '\0')]
  }

  lemma IndexOfAbsent(s: string, c: char)
    requires c !in s
    ensures IndexOf(s, c) == |s|
  {
  }

  /** A buffer without a NUL is its own C string. */
  lemma CStrWhole(t: string)
    requires '\0' !in t
    ensures CStr(t) == t
  {
    IndexOfAbsent(t, '\0');
  }

  // ---------------------------------------------------------------- %d

  function DigitChar(d: nat): (c: char)
    requires d < 10
    ensures IsDigit(c)
  {
    ('0' as int + d) as char
  }

  function DigitValue(c: char): (d: nat)
    requires IsDigit(c)
    ensures d < 10 && DigitChar(d) == c
  {
    c as int - '0' as int
  }

  predicate AllDigits(s: string) {
    forall i :: 0 <= i < |s| ==> IsDigit(s[i])
  }

  /** Decimal digits of `n`, most significant first, without leading zeros. */
  function NatToDigits(n: nat): (r: string)
    ensures |r| > 0 && AllDigits(r)
    ensures r[0] == '0' ==> n == 0
  {
    if n < 10 then [DigitChar(n)] else NatToDigits(n / 10) + [DigitChar(n % 10)]
  }

  /** printf("%d", i) for an int value. */
  function IntToString(i: int): (r: string)
    ensures |r| > 0 && !IsSpace(r[0]) && r[0] != '%' && r[0] != 'V' && r[0] != 'n'
    ensures forall k :: 0 <= k < |r| ==> !IsSpace(r[k]) && r[k] != '=' && r[k] != ':' && r[k] != '\n' && r[k] != '\0'
  {
    if i < 0 then "-" + NatToDigits(-i) else NatToDigits(i)
  }

  /** The value printf("%d", n) prints for a size_t argument n on an LP64
      platform: the low 32 bits of n read as a signed int. */
  function PrintfD(n: nat): (r: int)
    ensures -INT_MAX - 1 <= r <= INT_MAX
    ensures (n - r) % INT_MODULUS == 0
    ensures n <= INT_MAX ==> r == n
  {
    var low := n % INT_MODULUS;
    if low <= INT_MAX then low else low - INT_MODULUS
  }

  /** Conversion of a (signed) integer to size_t: reduction modulo 2^64. */
  function ToSizeT(i: int): (r: SizeT)
    ensures (r - i) % SIZE_T_MODULUS == 0
    ensures 0 <= i < SIZE_T_MODULUS ==> r == i
  {
    i % SIZE_T_MODULUS
  }

  // ---------------------------------------------------------------- atoi

  /** Length of the run of decimal digits at the front of `s`. */
  function DigitRun(s: string): (k: nat)
    ensures k <= |s| && AllDigits(s[..k])
    ensures k < |s| ==> !IsDigit(s[k])
  {
    if s != [] && IsDigit(s[0]) then 1 + DigitRun(s[1..]) else 0
  }

  /** The value of a string of decimal digits. */
  function DigitsValue(d: string): nat
    requires AllDigits(d)
  {
    if d == [] then 0 else DigitsValue(d[..|d| - 1]) * 10 + DigitValue(d[|d| - 1])
  }

  /** atoi(): leading whitespace, an optional sign, then the longest run of
      digits; anything after that is ignored and no digits give 0.  Overflow,
      which C leaves undefined, is not modelled: the result is the exact value. */
  function Atoi(t: string): int {
    var u := SkipSpaces(t);
    if |u| > 0 && (u[0] == '-' || u[0] == '+') then
      var m: int := DigitsValue(u[1..][..DigitRun(u[1..])]);
      if u[0] == '-' then -m else m
    else
      DigitsValue(u[..DigitRun(u)])
  }

  lemma {:induction false} DigitRunOfDigits(d: string, rest: string)
    requires AllDigits(d)
    requires rest == [] || !IsDigit(rest[0])
    ensures DigitRun(d + rest) == |d|
  {
    if d != [] {
      assert (d + rest)[1..] == d[1..] + rest;
      DigitRunOfDigits(d[1..], rest);
    }
  }

  lemma {:induction false} DigitsValueOfNat(n: nat)
    ensures DigitsValue(NatToDigits(n)) == n
  {
    if n >= 10 {
      var d := NatToDigits(n);
      assert d[..|d| - 1] == NatToDigits(n / 10);
      DigitsValueOfNat(n / 10);
    }
  }

  /** atoi reads back what %d wrote: the count-line and hint round trip. */
  lemma {:induction false} AtoiOfIntToString(i: int)
    ensures Atoi(IntToString(i)) == i
  {
    var t := IntToString(i);
    assert SkipSpaces(t) == t;
    if i < 0 {
      var d := NatToDigits(-i);
      assert t[1..] == d;
      DigitRunOfDigits(d, "");
      assert d + "" == d;
      assert d[..DigitRun(d)] == d;
      DigitsValueOfNat(-i);
    } else {
      var d := NatToDigits(i);
      DigitRunOfDigits(d, "");
      assert d + "" == d;
      assert d[..DigitRun(d)] == d;
      DigitsValueOfNat(i);
    }
  }

  // ---------------------------------------------------------------- split

  /** The pieces of `s` between occurrences of `sep`, left to right. */
  function Split(s: string, sep: char): (r: seq<string>)
    ensures |r| == Count(s, sep) + 1
    decreases |s|
  {
    var k := IndexOf(s, sep);
    if k == |s| then
      assert s[..k] == s;
      CountAbsent(s, sep);
      [s]
    else
      SplitStep(s, sep, k);
      [s[..k]] + Split(s[k + 1..], sep)
  }

  lemma SplitStep(s: string, sep: char, k: nat)
    requires k < |s| && s[k] == sep && sep !in s[..k]
    ensures Count(s, sep) == 1 + Count(s[k + 1..], sep)
    ensures s == s[..k] + [sep] + s[k + 1..]
  {
    assert s == s[..k] + ([sep] + s[k + 1..]);
    CountAppend(s[..k], [sep] + s[k + 1..], sep);
    CountAbsent(s[..k], sep);
    assert ([sep] + s[k + 1..])[1..] == s[k + 1..];
  }

  /** No piece holds `sep`, and joining the pieces with `sep` gives back s. */
  lemma {:induction false} JoinSplit(s: string, sep: char)
    ensures forall i :: 0 <= i < |Split(s, sep)| ==> sep !in Split(s, sep)[i]
    ensures Join(Split(s, sep), sep) == s
    decreases |s|
  {
    var k := IndexOf(s, sep);
    if k < |s| {
      var rest := s[k + 1..];
      JoinSplit(rest, sep);
      SplitStep(s, sep, k);
      var r := Split(s, sep);
      assert r == [s[..k]] + Split(rest, sep);
      assert r[1..] == Split(rest, sep);
      assert |Split(rest, sep)| >= 1;
      assert Join(r, sep) == s[..k] + [sep] + Join(Split(rest, sep), sep);
    } else {
      assert s[..k] == s;
    }
  }

  /** Splitting the pieces joined with `sep` gives back the pieces, when
      none of them holds `sep`. */
  lemma {:induction false} SplitJoin(p: seq<string>, sep: char)
    requires |p| > 0 && forall i :: 0 <= i < |p| ==> sep !in p[i]
    ensures Split(Join(p, sep), sep) == p
    decreases |p|
  {
    if |p| == 1 {
      IndexOfAbsent(p[0], sep);
      assert p == [p[0]];
    } else {
      var s := Join(p, sep);
      var rest := Join(p[1..], sep);
      assert s == p[0] + [sep] + rest;
      assert s[..|p[0]|] == p[0];
      IndexOfFirst(s, sep, |p[0]|);
      assert s[|p[0]| + 1..] == rest;
      SplitJoin(p[1..], sep);
      assert p == [p[0]] + p[1..];
    }
  }

  /** The pieces joined back with `sep` between them. */
  function Join(p: seq<string>, sep: char): string {
    if |p| == 0 then "" else if |p| == 1 then p[0] else p[0] + [sep] + Join(p[1..], sep)
  }

  /** Every element of `p` mapped through `f`. */
  function MapSeq<A, B>(p: seq<A>, f: A -> B): (r: seq<B>)
    ensures |r| == |p|
    ensures forall i :: 0 <= i < |p| ==> r[i] == f(p[i])
  {
    seq(|p|, i requires 0 <= i < |p| => f(p[i]))
  }

  /** Mapping a concatenation maps each part: the conversion of one piece
      does not depend on the pieces around it. */
  lemma MapSeqAppend<A, B>(p: seq<A>, q: seq<A>, f: A -> B)
    ensures MapSeq(p + q, f) == MapSeq(p, f) + MapSeq(q, f)
  {
    assert forall i :: 0 <= i < |q| ==> (p + q)[|p| + i] == q[i];
  }
}
