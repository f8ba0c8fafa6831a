/** Values and small string and sequence operations shared by the browser analyser
    (web/script.js) and the batch analyser (main.py). */
module Common {

  datatype Option<T> = None | Some(value: T)

  datatype Result<T, E> = Ok(value: T) | Err(error: E)

  function Min(a: int, b: int): int { if a < b then a else b }

  /** The decade of a year: `Math.floor(year / 10) * 10` in script.js and
      `(year // 10) * 10` in main.py. Both round toward minus infinity, and so does
      Dafny's `/` when the divisor is positive. */
  function Decade(year: int): (d: int)
    ensures d % 10 == 0
    ensures d <= year < d + 10
  {
    (year / 10) * 10
  }

  /** The two properties in Decade's contract pin the decade down: no other
      multiple of ten lies within ten years below the year. */
  lemma DecadeUnique(year: int, d: int)
    requires d % 10 == 0 && d <= year < d + 10
    ensures d == Decade(year)
  {
    var e := Decade(year);
    assert d == (d / 10) * 10;
    assert e == (e / 10) * 10;
    assert -10 < d - e < 10;
    assert (d - e) % 10 == 0;
  }

  /** The first `n` characters of `s`, or all of it when it is shorter:
      `releaseDate.substring(0, 4)` and `release_date[:4]`. */
  function Prefix(s: string, n: nat): (p: string)
    ensures |p| == Min(n, |s|)
    ensures p == s[..|p|]
  {
    s[..Min(n, |s|)]
  }

  /** The parts glued together with `sep` between neighbours, like JavaScript's
      `Array.join` and Python's `str.join`. */
  function Join(parts: seq<string>, sep: string): string
    decreases |parts|
  {
    if |parts| == 0 then ""
    else if |parts| == 1 then parts[0]
    else Join(parts[..|parts| - 1], sep) + sep + parts[|parts| - 1]
  }

  /** Joining two non-empty lists is joining each and putting one separator between. */
  lemma {:induction false} JoinAppend(a: seq<string>, b: seq<string>, sep: string)
    requires |a| > 0 && |b| > 0
    ensures Join(a + b, sep) == Join(a, sep) + sep + Join(b, sep)
    decreases |b|
  {
    var ab := a + b;
    if |b| == 1 {
      assert ab[..|ab| - 1] == a;
    } else {
      var b' := b[..|b| - 1];
      assert ab[..|ab| - 1] == a + b';
      JoinAppend(a, b', sep);
    }
  }

  /** The length of a joined list: every part plus one separator between each pair. */
  function TotalLength(parts: seq<string>): nat
    decreases |parts|
  {
    if |parts| == 0 then 0 else TotalLength(parts[..|parts| - 1]) + |parts[|parts| - 1]|
  }

  lemma MultiplyStep(a: nat, k: nat)
    requires k > 0
    ensures a * k == a * (k - 1) + a
  {
  }

  lemma {:induction false} JoinLength(parts: seq<string>, sep: string)
    requires |parts| > 0
    ensures |Join(parts, sep)| == TotalLength(parts) + |sep| * (|parts| - 1)
    decreases |parts|
  {
    var n := |parts|;
    var front := parts[..n - 1];
    if n == 1 {
      assert front == [];
    } else {
      JoinLength(front, sep);
      assert |Join(parts, sep)| == |Join(front, sep)| + |sep| + |parts[n - 1]| by {
        assert Join(parts, sep) == Join(front, sep) + sep + parts[n - 1];
      }
      assert TotalLength(parts) == TotalLength(front) + |parts[n - 1]|;
      MultiplyStep(|sep|, n - 1);
    }
  }

  lemma AppendAssoc<T>(a: seq<T>, b: seq<T>, c: seq<T>)
    ensures (a + b) + c == a + (b + c)
  {
  }

  /** The concatenation of a list of lists, in order (`items.concat`, `list.extend`). */
  function Concat<T>(ss: seq<seq<T>>): seq<T>
    decreases |ss|
  {
    if |ss| == 0 then [] else Concat(ss[..|ss| - 1]) + ss[|ss| - 1]
  }

  lemma {:induction false} ConcatAppend<T>(a: seq<seq<T>>, b: seq<seq<T>>)
    ensures Concat(a + b) == Concat(a) + Concat(b)
    decreases |b|
  {
    if |b| > 0 {
      var ab := a + b;
      assert ab[..|ab| - 1] == a + b[..|b| - 1];
      ConcatAppend(a, b[..|b| - 1]);
    } else {
      assert a + b == a;
    }
  }

  /** The decimal digits of a natural number, most significant first, no leading zero. */
  function Natural(n: nat): (s: string)
    ensures |s| > 0
    ensures forall i :: 0 <= i < |s| ==> '0' <= s[i] <= '9'
    ensures s[0] == '0' ==> n == 0
    decreases n
  {
    if n < 10 then [('0' as int + n) as char]
    else Natural(n / 10) + [('0' as int + n % 10) as char]
  }

  /** How JavaScript writes an integer number as text (`${track.year}`, `String(n)`). */
  function Decimal(n: int): string
  {
    if n < 0 then "-" + Natural(-n) else Natural(n)
  }

  /** The value of a string of decimal digits. */
  function DigitsValue(s: string): int
    decreases |s|
  {
    if |s| == 0 then 0 else DigitsValue(s[..|s| - 1]) * 10 + (s[|s| - 1] as int - '0' as int)
  }

  /** Reading the digits back gives the number: Decimal loses nothing. */
  lemma {:induction false} DecimalRoundTrip(n: int)
    ensures n >= 0 ==> DigitsValue(Decimal(n)) == n
    ensures n < 0 ==> Decimal(n)[0] == '-' && -DigitsValue(Decimal(n)[1..]) == n
  {
    var m := if n < 0 then -n else n;
    NaturalRoundTrip(m);
    if n < 0 {
      assert Decimal(n)[1..] == Natural(m);
    }
  }

  /** The value of a decimal text with an optional leading '-'. */
  function ReadInt(s: string): int
  {
    if |s| > 0 && s[0] == '-' then -DigitsValue(s[1..]) else DigitsValue(s)
  }

  /** Reading a written integer back gives the integer. */
  lemma DecimalReadBack(n: int)
    ensures ReadInt(Decimal(n)) == n
  {
    DecimalRoundTrip(n);
    if n >= 0 {
      assert '0' <= Natural(n)[0] <= '9';
    }
  }

  lemma {:induction false} NaturalRoundTrip(n: nat)
    ensures DigitsValue(Natural(n)) == n
    decreases n
  {
    if n >= 10 {
      NaturalRoundTrip(n / 10);
      var s := Natural(n);
      assert s[..|s| - 1] == Natural(n / 10);
    }
  }
}
