/**
  String operations the core relies on: the ordering `sortedBy { it.name }` uses
  (Kotlin's `String.compareTo`), ASCII case folding for `lowercase()` and
  `startsWith(prefix, ignoreCase = true)`, decimal formatting with Python's `06d`
  zero padding, and `joinToString`.
*/
module Text {

  // ---- UTF-16 code units, which Kotlin strings are made of ----

  /** The code units of one character: the character itself below U+10000,
      otherwise a high surrogate followed by a low surrogate. */
  function Units(c: char): (u: seq<int>)
    ensures 1 <= |u| <= 2
  {
    var v := c as int;
    if v < 0x10000 then [v]
    else [0xD800 + (v - 0x10000) / 0x400, 0xDC00 + (v - 0x10000) % 0x400]
  }

  /** The UTF-16 encoding of a string. */
  function Utf16(s: string): seq<int> {
    if s == [] then [] else Units(s[0]) + Utf16(s[1..])
  }

  /** `String.compareTo(other) < 0`: the first differing code unit decides, and
      a proper prefix comes before the longer sequence. */
  predicate UnitsLess(a: seq<int>, b: seq<int>)
    decreases |a|
  {
    if |a| == 0 then |b| > 0
    else if |b| == 0 then false
    else if a[0] != b[0] then a[0] < b[0]
    else UnitsLess(a[1..], b[1..])
  }

  /** The first code unit of a character. */
  function LeadUnit(c: char): int {
    Units(c)[0]
  }

  /** Characters in the order of their code units: the first units decide, and
      two characters sharing a high surrogate are ordered by their low ones,
      which follow code point order. */
  predicate CharLess(a: char, b: char) {
    LeadUnit(a) < LeadUnit(b) || (LeadUnit(a) == LeadUnit(b) && a < b)
  }

  /** Strict lexicographic order over characters compared as `CharLess`;
      `LexLessIsUtf16Order` shows it is Kotlin's code-unit order. */
  predicate LexLess(a: string, b: string)
    decreases |a|
  {
    if |a| == 0 then |b| > 0
    else if |b| == 0 then false
    else if a[0] != b[0] then CharLess(a[0], b[0])
    else LexLess(a[1..], b[1..])
  }

  lemma {:induction false} UnitsLessCommonPrefix(p: seq<int>, u: seq<int>, v: seq<int>)
    ensures UnitsLess(p + u, p + v) <==> UnitsLess(u, v)
  {
    if p != [] {
      UnitsLessCommonPrefix(p[1..], u, v);
      assert (p + u)[1..] == p[1..] + u;
      assert (p + v)[1..] == p[1..] + v;
    } else {
      assert p + u == u && p + v == v;
    }
  }

  /** Two characters sharing their first code unit are both above U+FFFF. */
  lemma SharedLeadIsSurrogate(x: char, y: char)
    requires x != y && LeadUnit(x) == LeadUnit(y)
    ensures x as int >= 0x10000 && y as int >= 0x10000
  {
  }

  /** At the first differing character, the code units decide as `CharLess` does. */
  lemma DifferingCharacters(x: char, y: char, u: seq<int>, v: seq<int>)
    requires x != y
    ensures UnitsLess(Units(x) + u, Units(y) + v) <==> CharLess(x, y)
  {
    var a, b := Units(x) + u, Units(y) + v;
    assert a[0] == LeadUnit(x) && b[0] == LeadUnit(y);
    if LeadUnit(x) == LeadUnit(y) {
      SharedLeadIsSurrogate(x, y);
      assert a[1] == Units(x)[1] && b[1] == Units(y)[1];
      assert a[1..][0] == a[1] && b[1..][0] == b[1];
      var vx, vy := x as int - 0x10000, y as int - 0x10000;
      assert vx / 0x400 == vy / 0x400;
      assert vx % 0x400 != vy % 0x400;
      assert x < y <==> vx % 0x400 < vy % 0x400;
    }
  }

  /** The model's order on names is Kotlin's: comparing the UTF-16 encodings. */
  lemma {:induction false} LexLessIsUtf16Order(a: string, b: string)
    ensures LexLess(a, b) <==> UnitsLess(Utf16(a), Utf16(b))
    decreases |a|
  {
    if a == [] || b == [] {
    } else if a[0] == b[0] {
      LexLessIsUtf16Order(a[1..], b[1..]);
      UnitsLessCommonPrefix(Units(a[0]), Utf16(a[1..]), Utf16(b[1..]));
    } else {
      DifferingCharacters(a[0], b[0], Utf16(a[1..]), Utf16(b[1..]));
    }
  }

  predicate LexLe(a: string, b: string) {
    a == b || LexLess(a, b)
  }

  lemma {:induction false} LexLessIrreflexive(a: string)
    ensures !LexLess(a, a)
  {
    if |a| > 0 {
      LexLessIrreflexive(a[1..]);
    }
  }

  lemma {:induction false} LexLessAsymmetric(a: string, b: string)
    ensures !(LexLess(a, b) && LexLess(b, a))
  {
    if |a| > 0 && |b| > 0 && a[0] == b[0] {
      LexLessAsymmetric(a[1..], b[1..]);
    }
  }

  lemma {:induction false} LexTotal(a: string, b: string)
    ensures a == b || LexLess(a, b) || LexLess(b, a)
  {
    if |a| > 0 && |b| > 0 && a[0] == b[0] {
      LexTotal(a[1..], b[1..]);
      if a[1..] == b[1..] {
        assert a == [a[0]] + a[1..] && b == [b[0]] + b[1..];
      }
    }
  }

  lemma {:induction false} LexLessTransitive(a: string, b: string, c: string)
    requires LexLess(a, b) && LexLess(b, c)
    ensures LexLess(a, c)
  {
    if |a| > 0 && a[0] == b[0] && b[0] == c[0] {
      LexLessTransitive(a[1..], b[1..], c[1..]);
    }
  }

  lemma LexLeTransitive(a: string, b: string, c: string)
    requires LexLe(a, b) && LexLe(b, c)
    ensures LexLe(a, c)
  {
    if a != b && b != c {
      LexLessTransitive(a, b, c);
    }
  }

  /** `LexLe` and `LexLess` never disagree about a pair in opposite directions. */
  lemma LexLeNotGreater(a: string, b: string)
    requires LexLe(a, b)
    ensures !LexLess(b, a)
  {
    LexLessIrreflexive(a);
    LexLessAsymmetric(a, b);
  }

  /** A common prefix does not change the order of two strings. */
  lemma {:induction false} LexLessCommonPrefix(p: string, a: string, b: string)
    requires LexLess(a, b)
    ensures LexLess(p + a, p + b)
  {
    if |p| == 0 {
      assert p + a == a && p + b == b;
    } else {
      LexLessCommonPrefix(p[1..], a, b);
      assert (p + a)[1..] == p[1..] + a;
      assert (p + b)[1..] == p[1..] + b;
    }
  }

  /** Between strings of equal length the order is settled inside them, so
      whatever follows them does not change it. */
  lemma {:induction false} LexLessEqualLengthExtended(a: string, b: string, c: string, d: string)
    requires LexLess(a, b) && |a| == |b|
    ensures LexLess(a + c, b + d)
  {
    assert |a| > 0;
    if a[0] == b[0] {
      LexLessEqualLengthExtended(a[1..], b[1..], c, d);
      assert (a + c)[1..] == a[1..] + c;
      assert (b + d)[1..] == b[1..] + d;
    }
  }

  // ---- ASCII case folding (the model does not cover non-ASCII letters) ----

  function LowerChar(c: char): (r: char)
    ensures 'A' <= c <= 'Z' ==> 'a' <= r <= 'z'
    ensures !('A' <= c <= 'Z') ==> r == c
  {
    if 'A' <= c <= 'Z' then (c as int + 32) as char else c
  }

  function UpperChar(c: char): char {
    if 'a' <= c <= 'z' then (c as int - 32) as char else c
  }

  /** `String.lowercase()` on ASCII text. */
  function Lower(s: string): (r: string)
    ensures |r| == |s|
    ensures forall i :: 0 <= i < |s| ==> r[i] == LowerChar(s[i])
  {
    if s == [] then [] else [LowerChar(s[0])] + Lower(s[1..])
  }

  /** Kotlin's `Char.equals(other, ignoreCase = true)` on ASCII letters. */
  predicate SameIgnoringCase(a: char, b: char) {
    UpperChar(a) == UpperChar(b)
  }

  /** Two characters are equal ignoring case exactly when they lower-case to
      the same character. */
  lemma SameIgnoringCaseIsSameLower(a: char, b: char)
    ensures SameIgnoringCase(a, b) <==> LowerChar(a) == LowerChar(b)
  {
  }

  /** `s.startsWith(prefix, ignoreCase = true)`: the start of `s` and `prefix`
      lower-case to the same text. */
  predicate StartsWithIgnoringCase(s: string, prefix: string): (b: bool)
    ensures b <==> |prefix| <= |s| && Lower(s[..|prefix|]) == Lower(prefix)
  {
    var same := |prefix| <= |s| && forall i :: 0 <= i < |prefix| ==> SameIgnoringCase(s[i], prefix[i]);
    assert |prefix| <= |s| ==> (same <==> Lower(s[..|prefix|]) == Lower(prefix)) by {
      if |prefix| <= |s| {
        forall i | 0 <= i < |prefix|
          ensures SameIgnoringCase(s[i], prefix[i]) <==> Lower(s[..|prefix|])[i] == Lower(prefix)[i]
        {
          SameIgnoringCaseIsSameLower(s[i], prefix[i]);
          assert s[..|prefix|][i] == s[i];
        }
        if !same {
          var i :| 0 <= i < |prefix| && !SameIgnoringCase(s[i], prefix[i]);
          assert Lower(s[..|prefix|])[i] != Lower(prefix)[i];
        }
      }
    }
    same
  }

  // ---- decimal formatting ----

  function DigitChar(d: nat): (c: char)
    requires d < 10
    ensures '0' <= c <= '9'
  {
    ('0' as int + d) as char
  }

  function DigitValue(c: char): int {
    c as int - '0' as int
  }

  function Pow10(k: nat): (r: nat)
    ensures r >= 1
  {
    if k == 0 then 1 else 10 * Pow10(k - 1)
  }

  /** The shortest decimal rendering of `n`, as `str(n)` gives it. */
  function Decimal(n: nat): (s: string)
    ensures |s| >= 1
    ensures forall i :: 0 <= i < |s| ==> '0' <= s[i] <= '9'
  {
    if n < 10 then [DigitChar(n)] else Decimal(n / 10) + [DigitChar(n % 10)]
  }

  function Zeros(k: nat): (s: string)
    ensures |s| == k
    ensures forall i :: 0 <= i < k ==> s[i] == '0'
  {
    if k == 0 then [] else Zeros(k - 1) + ['0']
  }

  /** Python's `f"{n:0{width}d}"`: the decimal rendering, left-padded with zeros
      to `width` characters and never truncated. */
  function ZeroPadded(n: nat, width: nat): string {
    var d := Decimal(n);
    if |d| < width then Zeros(width - |d|) + d else d
  }

  /** Padding gives at least `width` characters, and more only when the
      number itself needs more digits, in which case nothing is padded. */
  lemma ZeroPaddedWidth(n: nat, width: nat)
    ensures |ZeroPadded(n, width)| >= width
    ensures |ZeroPadded(n, width)| > width ==> ZeroPadded(n, width) == Decimal(n)
  {
  }

  /** The last `width` decimal digits of `n`, most significant first. */
  function FixedDigits(n: nat, width: nat): (s: string)
    ensures |s| == width
  {
    if width == 0 then [] else FixedDigits(n / 10, width - 1) + [DigitChar(n % 10)]
  }

  /** The number a string of decimal digits denotes. */
  function ValueOf(s: string): int {
    if s == [] then 0 else 10 * ValueOf(s[..|s| - 1]) + DigitValue(s[|s| - 1])
  }

  lemma {:induction false} DecimalValue(n: nat)
    ensures ValueOf(Decimal(n)) == n
  {
    if n >= 10 {
      DecimalValue(n / 10);
      var d := Decimal(n);
      assert d[..|d| - 1] == Decimal(n / 10);
    }
  }

  lemma {:induction false} ZerosPrefixValue(k: nat, s: string)
    ensures ValueOf(Zeros(k) + s) == ValueOf(s)
  {
    if s == [] {
      assert Zeros(k) + s == Zeros(k);
      if k > 0 {
        ZerosPrefixValue(k - 1, []);
        assert Zeros(k)[..k - 1] == Zeros(k - 1) + [];
      }
    } else {
      ZerosPrefixValue(k, s[..|s| - 1]);
      assert (Zeros(k) + s)[..|Zeros(k) + s| - 1] == Zeros(k) + s[..|s| - 1];
    }
  }

  /** Zero padding keeps the value, so distinct numbers get distinct renderings. */
  lemma ZeroPaddedValue(n: nat, width: nat)
    ensures ValueOf(ZeroPadded(n, width)) == n
  {
    DecimalValue(n);
    ZerosPrefixValue(if |Decimal(n)| < width then width - |Decimal(n)| else 0, Decimal(n));
  }

  lemma {:induction false} DecimalShort(n: nat, width: nat)
    requires width >= 1 && n < Pow10(width)
    ensures |Decimal(n)| <= width
  {
    if n >= 10 {
      assert width > 0;
      assert n / 10 < Pow10(width - 1);
      DecimalShort(n / 10, width - 1);
    }
  }

  lemma {:induction false} FixedDigitsOfZero(width: nat)
    ensures FixedDigits(0, width) == Zeros(width)
  {
    if width > 0 {
      FixedDigitsOfZero(width - 1);
    }
  }

  /** Below `10^width` the padded rendering is exactly `width` digits. */
  lemma {:induction false} ZeroPaddedIsFixed(n: nat, width: nat)
    requires width >= 1 && n < Pow10(width)
    ensures ZeroPadded(n, width) == FixedDigits(n, width)
  {
    DecimalShort(n, width);
    if n < 10 {
      FixedDigitsOfZero(width - 1);
    } else {
      ZeroPaddedIsFixed(n / 10, width - 1);
      DecimalShort(n / 10, width - 1);
      var d := Decimal(n / 10);
      if |d| < width - 1 {
        assert Zeros(width - |d|) == Zeros(width - 1 - |d|) + ['0'];
      }
    }
  }

  /** On numbers below `10^width`, fixed-width rendering is strictly monotone in
      lexicographic order. */
  lemma {:induction false} FixedDigitsOrdered(n: nat, m: nat, width: nat)
    requires n < m < Pow10(width)
    ensures LexLess(FixedDigits(n, width), FixedDigits(m, width))
  {
    assert width > 0;
    var cn, cm := [DigitChar(n % 10)], [DigitChar(m % 10)];
    assert m / 10 < Pow10(width - 1);
    if n / 10 < m / 10 {
      FixedDigitsOrdered(n / 10, m / 10, width - 1);
      LexLessEqualLengthExtended(FixedDigits(n / 10, width - 1), FixedDigits(m / 10, width - 1), cn, cm);
    } else {
      assert n % 10 < m % 10;
      assert LexLess(cn, cm);
      LexLessCommonPrefix(FixedDigits(n / 10, width - 1), cn, cm);
    }
  }

  /** The total length of some strings. */
  function TotalLength(items: seq<string>): nat {
    if items == [] then 0 else |items[0]| + TotalLength(items[1..])
  }

  /** Where item `i` starts in the joined text: after each item before it
      and the separator that follows that item. */
  function ItemOffset(items: seq<string>, sep: string, i: nat): nat
    requires i <= |items|
  {
    if i == 0 then 0 else ItemOffset(items, sep, i - 1) + |items[i - 1]| + |sep|
  }

  /** The offset of item `i` is the length of the items before it plus one
      separator for each of them. */
  lemma {:induction false} ItemOffsetClosedForm(items: seq<string>, sep: string, i: nat)
    requires i <= |items|
    ensures ItemOffset(items, sep, i) == TotalLength(items[..i]) + i * |sep|
  {
    if i > 0 {
      ItemOffsetClosedForm(items, sep, i - 1);
      TotalLengthSnoc(items[..i - 1], items[i - 1]);
      assert items[..i] == items[..i - 1] + [items[i - 1]];
    }
  }

  /** Appending one string adds its length. */
  lemma {:induction false} TotalLengthSnoc(items: seq<string>, last: string)
    ensures TotalLength(items + [last]) == TotalLength(items) + |last|
  {
    if items != [] {
      assert (items + [last])[1..] == items[1..] + [last];
      TotalLengthSnoc(items[1..], last);
    }
  }

  /** Dropping the first item moves every later offset back by that item and
      one separator. */
  lemma {:induction false} ItemOffsetTail(items: seq<string>, sep: string, i: nat)
    requires 1 <= i <= |items|
    ensures ItemOffset(items, sep, i) == |items[0]| + |sep| + ItemOffset(items[1..], sep, i - 1)
  {
    if i > 1 {
      ItemOffsetTail(items, sep, i - 1);
      assert items[1..][i - 2] == items[i - 1];
    }
  }

  /** `joinToString(sep)`: the items in order with `sep` between neighbours,
      so it starts with the first item, ends with the last, and adds one
      separator per gap; `JoinPlacesItems` places every item and separator. */
  function Join(items: seq<string>, sep: string): (r: string)
    ensures items == [] ==> r == ""
    ensures items != [] ==> |r| == TotalLength(items) + |sep| * (|items| - 1)
  {
    if items == [] then ""
    else if |items| == 1 then items[0]
    else items[0] + sep + Join(items[1..], sep)
  }

  /** A slice of the second part of a concatenation, moved past the first. */
  lemma SliceShift(r: string, p: string, q: string, x: nat, o: nat, len: nat, piece: string)
    requires r == p + q && x == |p| + o && o + len <= |q| && q[o..o + len] == piece
    ensures x + len <= |r| && r[x..x + len] == piece
  {
    assert r[x..x + len] == q[o..o + len];
  }

  /** Item `i` of a join sits at its offset. */
  lemma {:induction false} JoinItemAt(items: seq<string>, sep: string, i: nat)
    requires i < |items|
    ensures ItemOffset(items, sep, i) + |items[i]| <= |Join(items, sep)|
    ensures Join(items, sep)[ItemOffset(items, sep, i)..ItemOffset(items, sep, i) + |items[i]|] == items[i]
  {
    if i == 0 {
      assert items[..0] == [];
      assert ItemOffset(items, sep, 0) == 0;
      assert Join(items, sep)[0..|items[0]|] == Join(items, sep)[..|items[0]|];
    } else {
      var rest, p := Join(items[1..], sep), items[0] + sep;
      JoinItemAt(items[1..], sep, i - 1);
      ItemOffsetTail(items, sep, i);
      assert items[1..][i - 1] == items[i];
      SliceShift(Join(items, sep), p, rest, ItemOffset(items, sep, i), ItemOffset(items[1..], sep, i - 1), |items[i]|, items[i]);
    }
  }

  /** Exactly `sep` follows item `i` of a join, when another item comes
      after it; item `i + 1` starts right after (`ItemOffset`). */
  lemma {:induction false} JoinSeparatorAt(items: seq<string>, sep: string, i: nat)
    requires i + 1 < |items|
    ensures ItemOffset(items, sep, i) + |items[i]| + |sep| <= |Join(items, sep)|
    ensures Join(items, sep)[ItemOffset(items, sep, i) + |items[i]|..ItemOffset(items, sep, i) + |items[i]| + |sep|] == sep
  {
    var rest := Join(items[1..], sep);
    assert Join(items, sep) == items[0] + sep + rest;
    if i == 0 {
      SliceShift(Join(items, sep), items[0], sep + rest, |items[0]|, 0, |sep|, sep);
    } else {
      JoinSeparatorAt(items[1..], sep, i - 1);
      ItemOffsetTail(items, sep, i);
      assert items[1..][i - 1] == items[i];
      var o := ItemOffset(items[1..], sep, i - 1);
      SliceShift(Join(items, sep), items[0] + sep, rest, ItemOffset(items, sep, i) + |items[i]|, o + |items[i]|, |sep|, sep);
    }
  }

  /** Every item of a join sits at its offset. */
  lemma {:induction false} JoinPlacesItems(items: seq<string>, sep: string)
    ensures forall i :: 0 <= i < |items| ==>
              ItemOffset(items, sep, i) + |items[i]| <= |Join(items, sep)|
              && Join(items, sep)[ItemOffset(items, sep, i)..ItemOffset(items, sep, i) + |items[i]|] == items[i]
  {
    forall i | 0 <= i < |items| {
      JoinItemAt(items, sep, i);
    }
  }

  /** Exactly `sep` follows each item of a join but the last. */
  lemma {:induction false} JoinPlacesSeparators(items: seq<string>, sep: string)
    ensures forall i :: 0 <= i < |items| - 1 ==>
              ItemOffset(items, sep, i) + |items[i]| + |sep| <= |Join(items, sep)|
              && Join(items, sep)[ItemOffset(items, sep, i) + |items[i]|..ItemOffset(items, sep, i) + |items[i]| + |sep|] == sep
  {
    forall i | 0 <= i < |items| - 1 {
      JoinSeparatorAt(items, sep, i);
    }
  }

  /** A join ends where its last item does, so the items and the separators
      between them cover it exactly. */
  lemma JoinEndsAtLastItem(items: seq<string>, sep: string)
    requires items != []
    ensures |Join(items, sep)| == ItemOffset(items, sep, |items| - 1) + |items[|items| - 1]|
  {
    var n := |items|;
    ItemOffsetClosedForm(items, sep, n - 1);
    TotalLengthSnoc(items[..n - 1], items[n - 1]);
    assert items[..n - 1] + [items[n - 1]] == items;
  }
}
