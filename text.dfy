/**
 * Strings as the router and the handlers see them: decimal digits, the
 * integer-to-string conversion PHP and MySQL share, zero padding as in
 * `date()`, `trim`/`explode`/`implode` on one separator character,
 * `str_replace` of one character and the byte-wise order MySQL uses to
 * compare the canonical date and datetime strings.
 */
module Text {

  // ---------------------------------------------------------------- digits

  predicate IsDigit(c: char) { '0' <= c <= '9' }

  /** Every character is an ASCII digit (PCRE `\d` without the `u` flag). */
  predicate IsDigits(s: string) { forall i | 0 <= i < |s| :: IsDigit(s[i]) }

  function DigitValue(c: char): nat
    requires IsDigit(c)
  {
    c as int - '0' as int
  }

  function DigitChar(d: nat): (c: char)
    requires d < 10
    ensures IsDigit(c) && DigitValue(c) == d
  {
    ('0' as int + d) as char
  }

  /** The number a string of decimal digits denotes; leading zeros do not count. */
  function DecimalValue(s: string): nat
    requires IsDigits(s)
  {
    if s == [] then 0 else DecimalValue(s[..|s| - 1]) * 10 + DigitValue(s[|s| - 1])
  }

  /** The decimal spelling of n without leading zeros. */
  function NatToString(n: nat): (s: string)
    ensures |s| >= 1 && IsDigits(s)
  {
    if n < 10 then [DigitChar(n)] else NatToString(n / 10) + [DigitChar(n % 10)]
  }

  /** PHP's `(string)` of an integer, also what MySQL prints for one. */
  function IntToString(i: int): string
  {
    if i < 0 then "-" + NatToString(-i) else NatToString(i)
  }

  function Pow10(k: nat): (p: nat)
    ensures p >= 1
  {
    if k == 0 then 1 else 10 * Pow10(k - 1)
  }

  lemma {:induction false} DecimalValueOfNatToString(n: nat)
    ensures DecimalValue(NatToString(n)) == n
  {
    if n >= 10 {
      var s := NatToString(n);
      assert s[..|s| - 1] == NatToString(n / 10);
      DecimalValueOfNatToString(n / 10);
    }
  }

  /** n has at most k digits exactly when it is below 10^k. */
  lemma {:induction false} NatToStringAtMost(n: nat, k: nat)
    requires k >= 1
    ensures |NatToString(n)| <= k <==> n < Pow10(k)
  {
    if n < 10 {
      Pow10AtLeastTen(k);
    } else if k == 1 {
      assert |NatToString(n)| == |NatToString(n / 10)| + 1;
    } else {
      NatToStringAtMost(n / 10, k - 1);
    }
  }

  lemma {:induction false} Pow10AtLeastTen(k: nat)
    requires k >= 1
    ensures Pow10(k) >= 10
  {
  }

  /** n has exactly k digits (for k at least 2) exactly when 10^(k-1) <= n < 10^k. */
  lemma NatToStringLength(n: nat, k: nat)
    requires k >= 2
    ensures |NatToString(n)| == k <==> Pow10(k - 1) <= n < Pow10(k)
  {
    NatToStringAtMost(n, k);
    NatToStringAtMost(n, k - 1);
  }

  /** A digit string, a minus sign in front of one, is never a word like "in". */
  lemma IntToStringShape(i: int)
    ensures |IntToString(i)| >= 1
    ensures IntToString(i)[0] == '-' || IsDigit(IntToString(i)[0])
  {
  }

  // ---------------------------------------------------------------- padding

  function Zeros(k: nat): (s: string)
    ensures |s| == k && IsDigits(s)
    ensures forall i | 0 <= i < k :: s[i] == '0'
  {
    seq(k, _ => '0')
  }

  /**
   * n in decimal, left-padded with zeros to at least `width` characters, as
   * `date()` prints a year (`Y`, at least four digits) or a month, day, hour,
   * minute or second (`m`, `d`, `H`, `i`, `s`, two digits).
   */
  function PadNat(n: nat, width: nat): (s: string)
    ensures |s| >= width && IsDigits(s) && DecimalValue(s) == n
  {
    var d := NatToString(n);
    DecimalValueOfNatToString(n);
    if |d| >= width then d else (LeadingZeros(width - |d|, d); Zeros(width - |d|) + d)
  }

  lemma {:induction false} LeadingZeros(k: nat, d: string)
    requires IsDigits(d)
    ensures IsDigits(Zeros(k) + d) && DecimalValue(Zeros(k) + d) == DecimalValue(d)
  {
    if d == [] {
      ZerosValue(k);
      assert Zeros(k) + d == Zeros(k);
    } else {
      var s := Zeros(k) + d;
      assert s[..|s| - 1] == Zeros(k) + d[..|d| - 1];
      LeadingZeros(k, d[..|d| - 1]);
    }
  }

  lemma {:induction false} ZerosValue(k: nat)
    ensures DecimalValue(Zeros(k)) == 0
  {
    if k > 0 {
      assert Zeros(k)[..k - 1] == Zeros(k - 1);
      ZerosValue(k - 1);
    }
  }

  /** The padded form is exactly `width` long when n fits in that many digits. */
  lemma PadNatLength(n: nat, width: nat)
    requires width >= 1
    ensures |PadNat(n, width)| == width <==> n < Pow10(width)
  {
    NatToStringAtMost(n, width);
  }

  // ------------------------------------------------- trim, explode, implode

  function TrimLeft(s: string, c: char): (r: string)
    ensures r == [] || r[0] != c
    ensures |r| <= |s| && r == s[|s| - |r|..]
  {
    if s != [] && s[0] == c then TrimLeft(s[1..], c) else s
  }

  function TrimRight(s: string, c: char): (r: string)
    ensures r == [] || r[|r| - 1] != c
    ensures |r| <= |s| && r == s[..|r|]
  {
    if s != [] && s[|s| - 1] == c then TrimRight(s[..|s| - 1], c) else s
  }

  /** PHP `trim($s, c)`: every leading and trailing c is removed. */
  function Trim(s: string, c: char): string
  {
    TrimRight(TrimLeft(s, c), c)
  }

  /** Neither begins nor ends with c. */
  predicate Trimmed(s: string, c: char)
  {
    s == [] || (s[0] != c && s[|s| - 1] != c)
  }

  /** Trim leaves a string with no c at either end, and leaves a trimmed one as it is. */
  lemma TrimProperties(s: string, c: char)
    ensures Trimmed(Trim(s, c), c)
    ensures Trimmed(s, c) ==> Trim(s, c) == s
  {
    var l := TrimLeft(s, c);
    var r := TrimRight(l, c);
    if r != [] {
      assert r == l[..|r|];
      assert r[0] == l[0];
    }
  }

  /** `ltrim` removes only c's. */
  lemma {:induction false} TrimLeftRemoves(s: string, c: char)
    ensures forall i | 0 <= i < |s| - |TrimLeft(s, c)| :: s[i] == c
  {
    if s != [] && s[0] == c {
      TrimLeftRemoves(s[1..], c);
      forall i | 1 <= i < |s| - |TrimLeft(s, c)| ensures s[i] == c {
        assert s[i] == s[1..][i - 1];
      }
    }
  }

  /** `rtrim` removes only c's. */
  lemma {:induction false} TrimRightRemoves(s: string, c: char)
    ensures forall i | |TrimRight(s, c)| <= i < |s| :: s[i] == c
  {
    if s != [] && s[|s| - 1] == c {
      var shorter := s[..|s| - 1];
      TrimRightRemoves(shorter, c);
      forall i | |TrimRight(s, c)| <= i < |shorter| ensures s[i] == c {
        assert s[i] == shorter[i];
      }
    }
  }

  /**
   * Trim removes nothing but c's, from either end: the result is a slice
   * of s with only c's before and after it.
   */
  lemma TrimRemovesOnly(s: string, c: char)
    ensures exists a, b | 0 <= a <= b <= |s| ::
      && Trim(s, c) == s[a..b]
      && (forall i | 0 <= i < a :: s[i] == c)
      && (forall i | b <= i < |s| :: s[i] == c)
  {
    var l := TrimLeft(s, c);
    var r := TrimRight(l, c);
    TrimLeftRemoves(s, c);
    TrimRightRemoves(l, c);
    var a := |s| - |l|;
    var b := a + |r|;
    assert l == s[a..];
    assert r == l[..|r|];
    assert r == s[a..b];
    forall i | b <= i < |s| ensures s[i] == c {
      assert s[i] == l[i - a];
    }
  }

  /** A property that c and every character of the trimmed text have holds of every character of s. */
  lemma TrimKeeps(s: string, c: char, p: char -> bool)
    requires p(c)
    requires forall i | 0 <= i < |Trim(s, c)| :: p(Trim(s, c)[i])
    ensures forall i | 0 <= i < |s| :: p(s[i])
  {
    var l := TrimLeft(s, c);
    var r := TrimRight(l, c);
    TrimLeftRemoves(s, c);
    TrimRightRemoves(l, c);
    var a := |s| - |l|;
    assert l == s[a..];
    assert r == l[..|r|];
    forall i | 0 <= i < |s| ensures p(s[i]) {
      if a <= i {
        assert s[i] == l[i - a];
        if i - a < |r| {
          assert l[i - a] == r[i - a] == Trim(s, c)[i - a];
        }
      }
    }
  }

  /** c's before a text do not survive `ltrim`. */
  lemma {:induction false} TrimLeftPadded(pre: string, u: string, c: char)
    requires forall i | 0 <= i < |pre| :: pre[i] == c
    ensures TrimLeft(pre + u, c) == TrimLeft(u, c)
  {
    if pre == [] {
      assert pre + u == u;
    } else {
      assert (pre + u)[0] == c;
      assert (pre + u)[1..] == pre[1..] + u;
      TrimLeftPadded(pre[1..], u, c);
    }
  }

  /** c's after a text do not survive `rtrim`. */
  lemma {:induction false} TrimRightPadded(u: string, post: string, c: char)
    requires forall i | 0 <= i < |post| :: post[i] == c
    ensures TrimRight(u + post, c) == TrimRight(u, c)
  {
    if post == [] {
      assert u + post == u;
    } else {
      var shorter := post[..|post| - 1];
      assert (u + post)[|u + post| - 1] == post[|post| - 1] == c;
      assert (u + post)[..|u + post| - 1] == u + shorter;
      TrimRightPadded(u, shorter, c);
    }
  }

  /** Trimming a trimmed text with c's around it gives back the text. */
  lemma TrimPadded(pre: string, u: string, post: string, c: char)
    requires forall i | 0 <= i < |pre| :: pre[i] == c
    requires forall i | 0 <= i < |post| :: post[i] == c
    requires u != [] && Trimmed(u, c)
    ensures Trim(pre + u + post, c) == u
  {
    assert pre + u + post == pre + (u + post);
    TrimLeftPadded(pre, u + post, c);
    assert (u + post)[0] == u[0];
    TrimRightPadded(u, post, c);
  }

  /** One c on each side of a trimmed string is trimmed away. */
  lemma TrimSurrounded(s: string, c: char)
    requires Trimmed(s, c)
    ensures Trim([c] + s + [c], c) == s
  {
    if s == [] {
      TrimPair(c);
      assert [c] + s + [c] == [c, c];
    } else {
      TrimLeftOne(s + [c], c);
      assert [c] + s + [c] == [c] + (s + [c]);
      TrimRightOne(s, c);
    }
  }

  /** A text of two c's trims to nothing. */
  lemma TrimPair(c: char)
    ensures Trim([c, c], c) == []
  {
    TrimSingle(c);
    var t := [c, c];
    assert t[0] == c && t[1..] == [c];
  }

  lemma TrimSingle(c: char)
    ensures TrimLeft([c], c) == []
  {
    var t := [c];
    assert t[0] == c && t[1..] == [];
  }

  /** Trimming the left of c followed by a text not starting with c leaves that text. */
  lemma TrimLeftOne(u: string, c: char)
    requires u != [] && u[0] != c
    ensures TrimLeft([c] + u, c) == u
  {
    assert ([c] + u)[1..] == u;
  }

  /** Trimming the right of a trimmed text followed by c leaves the text. */
  lemma TrimRightOne(s: string, c: char)
    requires Trimmed(s, c)
    ensures TrimRight(s + [c], c) == s
  {
    assert (s + [c])[..|s|] == s;
  }

  /**
   * PHP `explode(sep, s)`: the pieces between separators, in order; the empty
   * string gives one empty piece.
   */
  function Split(s: string, sep: char): (parts: seq<string>)
    ensures |parts| >= 1
  {
    if s == [] then [[]]
    else
      var rest := Split(s[1..], sep);
      if s[0] == sep then [[]] + rest else [[s[0]] + rest[0]] + rest[1..]
  }

  /** PHP `implode(sep, parts)`. */
  function Join(parts: seq<string>, sep: char): string
  {
    if parts == [] then [] else if |parts| == 1 then parts[0] else parts[0] + [sep] + Join(parts[1..], sep)
  }

  /** implode undoes explode. */
  lemma {:induction false} JoinSplit(s: string, sep: char)
    ensures Join(Split(s, sep), sep) == s
  {
    if s != [] {
      JoinSplit(s[1..], sep);
      var rest := Split(s[1..], sep);
      if s[0] == sep {
        assert Split(s, sep) == [[]] + rest;
        assert s == [sep] + s[1..];
      } else if |rest| == 1 {
        assert s == [s[0]] + s[1..];
      } else {
        var parts := Split(s, sep);
        assert parts[1..] == rest[1..];
        assert Join(rest, sep) == rest[0] + [sep] + Join(rest[1..], sep);
        assert s == [s[0]] + s[1..];
      }
    }
  }

  /** A separator splits the string into the pieces of either side. */
  lemma {:induction false} SplitConcat(a: string, b: string, sep: char)
    ensures Split(a + [sep] + b, sep) == Split(a, sep) + Split(b, sep)
  {
    var t := a + [sep] + b;
    if a == [] {
      assert t == [sep] + b && t[1..] == b;
    } else {
      var t1 := a[1..] + [sep] + b;
      assert t[0] == a[0] && t[1..] == t1;
      SplitConcat(a[1..], b, sep);
      var ra := Split(a[1..], sep);
      var rb := Split(b, sep);
      assert Split(t, sep) == if a[0] == sep then [[]] + (ra + rb) else [[a[0]] + (ra + rb)[0]] + (ra + rb)[1..];
      if a[0] != sep {
        assert (ra + rb)[0] == ra[0];
        assert (ra + rb)[1..] == ra[1..] + rb;
      }
    }
  }

  /** A string without the separator explodes into itself alone. */
  lemma {:induction false} SplitWord(w: string, sep: char)
    requires sep !in w
    ensures Split(w, sep) == [w]
  {
    if w != [] {
      SplitWord(w[1..], sep);
      assert w == [w[0]] + w[1..];
    }
  }

  /** explode undoes implode when no piece holds the separator. */
  lemma {:induction false} SplitJoin(parts: seq<string>, sep: char)
    requires |parts| >= 1
    requires forall p | p in parts :: sep !in p
    ensures Split(Join(parts, sep), sep) == parts
  {
    SplitWord(parts[0], sep);
    if |parts| > 1 {
      SplitJoin(parts[1..], sep);
      SplitConcat(parts[0], Join(parts[1..], sep), sep);
    }
  }

  // ------------------------------------------------------------- str_replace

  /** PHP `str_replace(from, to, s)` for single characters. */
  function ReplaceChar(s: string, from: char, to: char): (r: string)
    ensures |r| == |s|
    ensures forall i | 0 <= i < |s| :: r[i] == (if s[i] == from then to else s[i])
  {
    seq(|s|, i requires 0 <= i < |s| => if s[i] == from then to else s[i])
  }

  /** After replacing spaces by underscores no space is left, and nothing else moved. */
  lemma ReplaceCharRemoves(s: string, from: char, to: char)
    requires from != to
    ensures from !in ReplaceChar(s, from, to)
    ensures forall i | 0 <= i < |s| && s[i] != from :: ReplaceChar(s, from, to)[i] == s[i]
  {
  }

  // --------------------------------------------------------- byte-wise order

  /**
   * a sorts before or equal to b character by character, a proper prefix
   * first: how MySQL orders the zero-padded date and datetime strings.
   */
  predicate LexLe(a: string, b: string)
  {
    a == [] || (b != [] && (a[0] < b[0] || (a[0] == b[0] && LexLe(a[1..], b[1..]))))
  }

  lemma {:induction false} LexLeTotal(a: string, b: string)
    ensures LexLe(a, b) || LexLe(b, a)
  {
    if a != [] && b != [] && a[0] == b[0] {
      LexLeTotal(a[1..], b[1..]);
    }
  }

  lemma {:induction false} LexLeTransitive(a: string, b: string, c: string)
    requires LexLe(a, b) && LexLe(b, c)
    ensures LexLe(a, c)
  {
    if a != [] && b != [] && c != [] && a[0] == b[0] == c[0] {
      LexLeTransitive(a[1..], b[1..], c[1..]);
    }
  }
}
