/**
 Chunk keys. The world stores its chunks in a map keyed by the string
 "x,y,z" of the chunk coordinate, each integer in its decimal form. The rest
 of the model keys the map by the coordinate itself; this module shows that
 the two are interchangeable: the key string can be parsed back into the
 coordinate, so distinct coordinates never share a key.
 */
module ChunkKeys {
  import opened Voxels

  predicate IsDigit(ch: char)
  {
    '0' <= ch <= '9'
  }

  predicate AllDigits(s: string)
  {
    forall i :: 0 <= i < |s| ==> IsDigit(s[i])
  }

  /** The character of decimal digit `d`. */
  function DigitChar(d: nat): (ch: char)
    requires d < 10
    ensures IsDigit(ch)
    ensures ch as int - '0' as int == d
  {
    ('0' as int + d) as char
  }

  /** The decimal digits of `n`, most significant first, without leading
      zeros ("0" for zero). */
  function NatDigits(n: nat): (s: string)
    ensures |s| > 0 && AllDigits(s)
    decreases n
  {
    if n < 10 then [DigitChar(n)] else NatDigits(n / 10) + [DigitChar(n % 10)]
  }

  /** The decimal form of an integer, with a leading '-' when negative. */
  function IntString(i: int): (s: string)
    ensures |s| > 0
    ensures ',' !in s
  {
    if i < 0 then "-" + NatDigits(-i) else NatDigits(i)
  }

  /** The map key of a chunk coordinate. */
  function Key(c: Cell): string
  {
    IntString(c.x) + ([','] + (IntString(c.y) + ([','] + IntString(c.z))))
  }

  /** The value of a string of decimal digits. */
  function DigitsValue(s: string): nat
    requires AllDigits(s)
  {
    if |s| == 0 then 0
    else DigitsValue(s[..|s| - 1]) * 10 + (s[|s| - 1] as int - '0' as int)
  }

  /** Reading back the digits of `n` gives `n`. */
  lemma {:induction false} NatDigitsRoundTrip(n: nat)
    ensures DigitsValue(NatDigits(n)) == n
    decreases n
  {
    if n >= 10 {
      NatDigitsRoundTrip(n / 10);
      var s := NatDigits(n);
      assert s[..|s| - 1] == NatDigits(n / 10);
    }
  }

  /** Parses the decimal form of an integer: an optional '-' followed by
      at least one digit. */
  function ParseInt(s: string): (r: Option<int>)
    ensures r.Some? ==> |s| > 0
  {
    if |s| > 0 && s[0] == '-' then
      (if |s| > 1 && AllDigits(s[1..]) then Some(0 - DigitsValue(s[1..])) else None)
    else if |s| > 0 && AllDigits(s) then Some(DigitsValue(s))
    else None
  }

  lemma IntStringRoundTrip(i: int)
    ensures ParseInt(IntString(i)) == Some(i)
  {
    if i < 0 {
      NatDigitsRoundTrip(-i);
      var s := IntString(i);
      assert s[1..] == NatDigits(-i);
    } else {
      NatDigitsRoundTrip(i);
      assert IntString(i)[0] != '-';
    }
  }

  /** The position of the first `ch` in `s`, if any. */
  function IndexOf(s: string, ch: char): (r: Option<nat>)
    ensures r.Some? ==> r.value < |s| && s[r.value] == ch && ch !in s[..r.value]
    ensures r.None? ==> ch !in s
  {
    if |s| == 0 then None
    else if s[0] == ch then Some(0)
    else
      match IndexOf(s[1..], ch)
      case None => None
      case Some(k) =>
        assert s[..k + 1] == [s[0]] + s[1..][..k];
        Some(k + 1)
  }

  /** Splitting `a + [ch] + b` at its first `ch`, when `a` holds no `ch`,
      gives back `a` and `b`. */
  lemma SplitAt(a: string, ch: char, b: string)
    requires ch !in a
    ensures IndexOf(a + ([ch] + b), ch) == Some(|a|)
    ensures (a + ([ch] + b))[..|a|] == a
    ensures (a + ([ch] + b))[|a| + 1..] == b
  {
    var s := a + ([ch] + b);
    assert s[|a|] == ch;
    assert forall k :: 0 <= k < |a| ==> s[k] == a[k];
    assert ch in s[..|a| + 1];
  }

  /** Parses a key "x,y,z" back into its coordinate. */
  function ParseKey(s: string): Option<Cell>
  {
    match IndexOf(s, ',')
    case None => None
    case Some(i) =>
      var rest := s[i + 1..];
      match IndexOf(rest, ',')
      case None => None
      case Some(j) =>
        match (ParseInt(s[..i]), ParseInt(rest[..j]), ParseInt(rest[j + 1..]))
        case (Some(x), Some(y), Some(z)) => Some(Cell(x, y, z))
        case _ => None
  }

  /** Three comma-free parts joined by commas parse back part by part. */
  lemma ParseJoined(a: string, b: string, d: string, x: int, y: int, z: int)
    requires ',' !in a && ',' !in b
    requires ParseInt(a) == Some(x) && ParseInt(b) == Some(y) && ParseInt(d) == Some(z)
    ensures ParseKey(a + ([','] + (b + ([','] + d)))) == Some(Cell(x, y, z))
  {
    SplitAt(a, ',', b + ([','] + d));
    SplitAt(b, ',', d);
  }

  /** Every key parses back to the coordinate it was made from. */
  lemma KeyRoundTrip(c: Cell)
    ensures ParseKey(Key(c)) == Some(c)
  {
    IntStringRoundTrip(c.x);
    IntStringRoundTrip(c.y);
    IntStringRoundTrip(c.z);
    ParseJoined(IntString(c.x), IntString(c.y), IntString(c.z), c.x, c.y, c.z);
  }

  /** Distinct chunk coordinates have distinct keys, so a map keyed by
      `Key(c)` behaves as a map keyed by `c`. */
  lemma KeyInjective(a: Cell, b: Cell)
    ensures Key(a) == Key(b) <==> a == b
  {
    KeyRoundTrip(a);
    KeyRoundTrip(b);
  }
}
