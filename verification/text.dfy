/**
 * The two library routines the limit parser relies on: `strings.Split` with a
 * one-character separator, and `strconv.Atoi` / `strconv.Itoa` on a 64-bit
 * platform (where Go's `int` is 64 bits wide).
 */
module Text {
  import opened Results

  const MinInt64: int := -0x8000_0000_0000_0000
  const MaxInt64: int := 0x7fff_ffff_ffff_ffff

  predicate InInt64(v: int) {
    MinInt64 <= v <= MaxInt64
  }

  // ---------------------------------------------------------------------------
  // Splitting
  // ---------------------------------------------------------------------------

  /** How many times `c` occurs in `s`. */
  function Occurrences(s: string, c: char): nat {
    if s == [] then 0 else (if s[0] == c then 1 else 0) + Occurrences(s[1..], c)
  }

  /** Counting distributes over concatenation. */
  lemma {:induction false} OccurrencesAppend(a: string, b: string, c: char)
    ensures Occurrences(a + b, c) == Occurrences(a, c) + Occurrences(b, c)
    decreases |a|
  {
    if a != [] {
      assert (a + b)[1..] == a[1..] + b;
      OccurrencesAppend(a[1..], b, c);
    } else {
      assert a + b == b;
    }
  }

  /** The pieces of `s` between occurrences of `sep`, as `strings.Split` returns them:
      "" gives [""], "a/" gives ["a", ""], "/" gives ["", ""]. */
  function Split(s: string, sep: char): (parts: seq<string>)
    ensures |parts| == Occurrences(s, sep) + 1
    decreases |s|
  {
    if s == [] then [[]]
    else
      var rest := Split(s[1..], sep);
      if s[0] == sep then [[]] + rest
      else [[s[0]] + rest[0]] + rest[1..]
  }

  /** No piece contains the separator. */
  lemma {:induction false} SplitPieces(s: string, sep: char, i: nat)
    requires i < |Split(s, sep)|
    ensures sep !in Split(s, sep)[i]
    decreases |s|
  {
    if s != [] {
      var rest := Split(s[1..], sep);
      if s[0] == sep {
        if i > 0 { SplitPieces(s[1..], sep, i - 1); }
      } else if i == 0 {
        SplitPieces(s[1..], sep, 0);
      } else {
        SplitPieces(s[1..], sep, i);
      }
    }
  }

  /** The inverse of `Split`: the pieces glued back together with `sep` between them. */
  function Join(parts: seq<string>, sep: char): string
    requires |parts| > 0
    decreases |parts|
  {
    if |parts| == 1 then parts[0] else parts[0] + [sep] + Join(parts[1..], sep)
  }

  /** One step of `Split`, on a nonempty text. */
  lemma SplitStep(s: string, sep: char)
    requires s != []
    ensures s[0] == sep ==> Split(s, sep) == [[]] + Split(s[1..], sep)
    ensures s[0] != sep ==>
      Split(s, sep) == [[s[0]] + Split(s[1..], sep)[0]] + Split(s[1..], sep)[1..]
  {
  }

  /** A separator-free prefix is glued onto the first piece of what follows it. */
  lemma {:induction false} SplitPrefix(a: string, t: string, sep: char)
    requires sep !in a
    ensures Split(a + t, sep) == [a + Split(t, sep)[0]] + Split(t, sep)[1..]
    decreases |a|
  {
    var st := Split(t, sep);
    if a == [] {
      assert a + t == t && a + st[0] == st[0];
      assert st == [st[0]] + st[1..];
    } else {
      var at := a + t;
      assert at[0] == a[0] && at[1..] == a[1..] + t;
      SplitPrefix(a[1..], t, sep);
      SplitStep(at, sep);
      assert [a[0]] + (a[1..] + st[0]) == a + st[0];
    }
  }

  /** Splitting undoes joining, provided no piece contains the separator. */
  lemma {:induction false} SplitJoin(parts: seq<string>, sep: char)
    requires |parts| > 0
    requires forall i :: 0 <= i < |parts| ==> sep !in parts[i]
    ensures Split(Join(parts, sep), sep) == parts
    decreases |parts|
  {
    if |parts| == 1 {
      SplitPrefix(parts[0], [], sep);
      assert parts[0] + [] == parts[0];
    } else {
      var head, rest := parts[0], parts[1..];
      var tail := Join(rest, sep);
      SplitJoin(rest, sep);
      var t := [sep] + tail;
      assert Join(parts, sep) == head + t;
      SplitPrefix(head, t, sep);
      assert t[0] == sep && t[1..] == tail;
      SplitStep(t, sep);
      var st := Split(t, sep);
      assert st[0] == [] && st[1..] == rest;
      assert head + st[0] == head;
      assert parts == [head] + rest;
    }
  }

  /** One step of `Join`, for at least two pieces. */
  lemma JoinCons(p: string, rest: seq<string>, sep: char)
    requires |rest| > 0
    ensures Join([p] + rest, sep) == p + [sep] + Join(rest, sep)
  {
    assert ([p] + rest)[1..] == rest;
  }

  /** Gluing a character onto the first piece glues it onto the joined text. */
  lemma JoinGlue(c: char, rest: seq<string>, sep: char)
    requires |rest| > 0
    ensures Join([[c] + rest[0]] + rest[1..], sep) == [c] + Join(rest, sep)
  {
    if |rest| > 1 {
      var first, others := rest[0], rest[1..];
      assert rest == [first] + others;
      JoinCons(first, others, sep);
      JoinCons([c] + first, others, sep);
      assert [c] + first + [sep] + Join(others, sep) == [c] + (first + [sep] + Join(others, sep));
    }
  }

  /** Joining undoes splitting: `Split` loses nothing of its input. */
  lemma {:induction false} JoinSplit(s: string, sep: char)
    ensures Join(Split(s, sep), sep) == s
    decreases |s|
  {
    if s != [] {
      var c, tail := s[0], s[1..];
      assert s == [c] + tail;
      var rest := Split(tail, sep);
      JoinSplit(tail, sep);
      SplitStep(s, sep);
      if c == sep {
        JoinCons([], rest, sep);
        assert [] + [sep] + tail == s;
      } else {
        JoinGlue(c, rest, sep);
      }
    }
  }

  /** The two-piece case that `ParseLimit` relies on. */
  lemma SplitPair(a: string, b: string, sep: char)
    requires sep !in a && sep !in b
    ensures Split(a + [sep] + b, sep) == [a, b]
  {
    SplitJoin([a, b], sep);
    assert [a, b][1..] == [b];
  }

  // ---------------------------------------------------------------------------
  // Decimal numerals
  // ---------------------------------------------------------------------------

  predicate IsDigit(c: char) {
    '0' <= c <= '9'
  }

  predicate AllDigits(s: string) {
    forall i :: 0 <= i < |s| ==> IsDigit(s[i])
  }

  function DigitValue(c: char): nat
    requires IsDigit(c)
  {
    (c as int) - ('0' as int)
  }

  function DigitChar(d: nat): (c: char)
    requires d < 10
    ensures IsDigit(c) && DigitValue(c) == d
  {
    (('0' as int) + d) as char
  }

  /** The value of a numeral, most significant digit first. */
  function DigitsValue(s: string): nat
    requires AllDigits(s)
  {
    if s == [] then 0 else DigitsValue(s[..|s| - 1]) * 10 + DigitValue(s[|s| - 1])
  }

  /** The decimal numeral of `n`, without leading zeros. */
  function NatDigits(n: nat): (s: string)
    ensures |s| > 0 && AllDigits(s)
    ensures DigitsValue(s) == n
    ensures |s| > 1 ==> s[0] != '0'
  {
    if n < 10 then [DigitChar(n)]
    else
      var s := NatDigits(n / 10) + [DigitChar(n % 10)];
      assert s[..|s| - 1] == NatDigits(n / 10);
      s
  }

  /** `strconv.Itoa`: a minus sign for negative values, then the digits. */
  function Itoa(q: int): string {
    if q < 0 then "-" + NatDigits(-q) else NatDigits(q)
  }

  /** The text `strconv.Atoi` accepts syntactically: an optional sign and at least one digit. */
  predicate IsNumeral(s: string) {
    && |s| > 0
    && (IsDigit(s[0]) || ((s[0] == '+' || s[0] == '-') && |s| > 1))
    && forall i :: 1 <= i < |s| ==> IsDigit(s[i])
  }

  /** `strconv.Atoi` on a 64-bit platform: a syntax error, or a value outside
      the range of `int`, gives `None`. */
  function Atoi(s: string): (r: Option<int>)
    ensures r.Some? ==> IsNumeral(s) && InInt64(r.value)
  {
    var signed := |s| > 0 && (s[0] == '+' || s[0] == '-');
    var digits := if signed then s[1..] else s;
    if digits == [] || !AllDigits(digits) then None
    else
      var v: int := if signed && s[0] == '-' then 0 - DigitsValue(digits) else DigitsValue(digits);
      if InInt64(v) then Some(v) else None
  }

  /** Round trip: every 64-bit integer reads back from its own numeral. */
  lemma AtoiItoa(q: int)
    requires InInt64(q)
    ensures Atoi(Itoa(q)) == Some(q)
  {
    if q < 0 {
      assert ("-" + NatDigits(-q))[1..] == NatDigits(-q);
    }
  }

  /** Integers outside the 64-bit range are refused even though their numeral is well formed. */
  lemma AtoiOutOfRange(q: int)
    requires !InInt64(q)
    ensures IsNumeral(Itoa(q)) && Atoi(Itoa(q)) == None
  {
    if q < 0 {
      assert ("-" + NatDigits(-q))[1..] == NatDigits(-q);
    }
  }

  /** An explicit plus sign is accepted. */
  lemma AtoiPlus(n: nat)
    requires n <= MaxInt64
    ensures Atoi("+" + Itoa(n)) == Some(n)
  {
    assert ("+" + NatDigits(n))[1..] == NatDigits(n);
  }

  /** `z` zero digits. */
  function Zeros(z: nat): (s: string)
    ensures |s| == z && AllDigits(s)
  {
    if z == 0 then [] else Zeros(z - 1) + ['0']
  }

  /** A run of zeros has value zero. */
  lemma {:induction false} ZerosValue(z: nat)
    ensures DigitsValue(Zeros(z)) == 0
  {
    if z > 0 {
      ZerosValue(z - 1);
      var s := Zeros(z);
      assert s[..|s| - 1] == Zeros(z - 1);
    }
  }

  /** Leading zeros do not change the value of a numeral. */
  lemma {:induction false} LeadingZerosValue(z: nat, d: string)
    requires AllDigits(d)
    ensures AllDigits(Zeros(z) + d) && DigitsValue(Zeros(z) + d) == DigitsValue(d)
    decreases |d|
  {
    var s := Zeros(z) + d;
    if d == [] {
      assert s == Zeros(z);
      ZerosValue(z);
    } else {
      var d' := d[..|d| - 1];
      assert s[..|s| - 1] == Zeros(z) + d';
      assert s[|s| - 1] == d[|d| - 1];
      LeadingZerosValue(z, d');
    }
  }

  /** A run of digits without a sign is accepted exactly when its value fits. */
  lemma AtoiUnsigned(d: string)
    requires |d| > 0 && AllDigits(d)
    ensures Atoi(d) == (if InInt64(DigitsValue(d)) then Some(DigitsValue(d)) else None)
  {
    assert IsDigit(d[0]);
  }

  /** A sign followed by a run of digits is accepted exactly when its signed value fits. */
  lemma AtoiSigned(s: string)
    requires |s| > 1 && (s[0] == '+' || s[0] == '-') && AllDigits(s[1..])
    ensures var v: int := if s[0] == '-' then 0 - DigitsValue(s[1..]) else DigitsValue(s[1..]);
      Atoi(s) == (if InInt64(v) then Some(v) else None)
  {
  }

  /** Leading zeros are accepted: any number of zeros and then the digits of `n`
      read as `n` when it fits in 64 bits ("007" is 7), and are refused otherwise. */
  lemma AtoiLeadingZeros(z: nat, n: nat)
    ensures AllDigits(Zeros(z) + NatDigits(n))
    ensures Atoi(Zeros(z) + NatDigits(n)) == (if n <= MaxInt64 then Some(n) else None)
  {
    var d := Zeros(z) + NatDigits(n);
    LeadingZerosValue(z, NatDigits(n));
    AtoiUnsigned(d);
  }

  /** The same with a sign in front: "-007" is -7 and "-0" is 0; the negative range
      reaches one further than the positive one. */
  lemma AtoiSignedLeadingZeros(c: char, z: nat, n: nat)
    requires c == '+' || c == '-'
    ensures var v: int := if c == '-' then 0 - n else n;
      Atoi([c] + (Zeros(z) + NatDigits(n))) == (if InInt64(v) then Some(v) else None)
  {
    var d := Zeros(z) + NatDigits(n);
    LeadingZerosValue(z, NatDigits(n));
    var s := [c] + d;
    assert s[0] == c && s[1..] == d;
    AtoiSigned(s);
  }

  /** Anything that is not a sign followed by digits is a syntax error. */
  lemma AtoiRejectsNonNumeral(s: string)
    requires !IsNumeral(s)
    ensures Atoi(s) == None
  {
  }
}
