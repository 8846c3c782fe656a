/** Printing and parsing machine integers in decimal (include/common.h, src/adv_string.c), on a
    64-bit machine. */
module Decimal {
  import opened Sequences

  const INTEGER_MAX := 0x7FFF_FFFF_FFFF_FFFF
  const INTEGER_MIN := -0x8000_0000_0000_0000
  const STR_INTEGER_MIN := "-9223372036854775808"

  newtype Word = x: int | INTEGER_MIN <= x <= INTEGER_MAX

  // ----- numerals

  function DigitChar(d: nat): char
    requires d < 10
  {
    (48 + d) as char
  }

  predicate IsDigit(c: char) {
    '0' <= c <= '9'
  }

  /** The digits of a positive number, none for 0. */
  function Digits(v: nat): string {
    if v == 0 then [] else Digits(v / 10) + [DigitChar(v % 10)]
  }

  /** The decimal numeral of a number. */
  function Numeral(n: int): string {
    if n == 0 then "0" else if n < 0 then "-" + Digits(-n) else Digits(n)
  }

  /** The number that digits stand for. */
  function Valued(s: string): nat
    requires forall c <- s :: IsDigit(c)
  {
    if s == [] then 0 else
      assert IsDigit(s[|s| - 1]);
      Valued(s[..|s| - 1]) * 10 + (s[|s| - 1] as int - 48)
  }

  function Pow10(k: nat): nat {
    if k == 0 then 1 else 10 * Pow10(k - 1)
  }

  lemma {:induction false} DigitsAre(v: nat)
    ensures (forall c <- Digits(v) :: IsDigit(c)) && Valued(Digits(v)) == v
  {
    if v == 0 {
    } else {
      DigitsAre(v / 10);
      assert Digits(v)[..|Digits(v)| - 1] == Digits(v / 10);
    }
  }

  /** How many digits a number has. */
  lemma {:induction false} DigitsLength(v: nat, k: nat)
    ensures |Digits(v)| <= k <==> v < Pow10(k)
  {
    if v > 0 {
      if k == 0 {
        assert Pow10(0) == 1;
      } else {
        DigitsLength(v / 10, k - 1);
        assert v / 10 < Pow10(k - 1) <==> v < 10 * Pow10(k - 1);
      }
    } else {
      PowPositive(k);
    }
  }

  lemma {:induction false} PowPositive(k: nat)
    ensures Pow10(k) > 0
  {
    if k == 0 {
    } else {
      PowPositive(k - 1);
    }
  }

  // ----- abs_value and count_places

  /** `abs_value`: the minimum has no absolute value, and answers -1. */
  function AbsValue(num: Word): (r: Word)
    ensures num as int == INTEGER_MIN <==> r < 0
    ensures if r < 0 then r == -1 else r as int == num as int || r as int == -(num as int)
  {
    if num as int == INTEGER_MIN then -1 else if num > 0 then num else -num
  }

  const PLACES_MAX: seq<Word> := [
    9, 99, 999, 9999, 99999, 999999, 9999999, 99999999, 999999999, 9999999999, 99999999999, 999999999999,
    9999999999999, 99999999999999, 999999999999999, 9999999999999999, 99999999999999999, 999999999999999999
  ]

  lemma {:induction false} PlacesAre(i: nat)
    requires i < 18
    ensures |PLACES_MAX| == 18 && PLACES_MAX[i] as int == Pow10(i + 1) - 1
  {
    if i > 0 {
      PlacesAre(i - 1);
      assert Pow10(i + 1) == 10 * Pow10(i);
      assert PLACES_MAX[i] as int == 10 * (PLACES_MAX[i - 1] as int) + 9;
    } else {
      assert Pow10(1) == 10 * Pow10(0);
    }
  }

  /** The binary search: `rslt - 1` is the first place whose limit is not below the number. */
  method PlacesOf(positive: Word, limits: seq<Word>) returns (rslt: Word)
    requires 0 < |limits| < 100
    ensures 1 <= rslt as int <= |limits| + 1
    ensures rslt > 1 ==> positive > limits[rslt as int - 2]
    ensures rslt as int <= |limits| ==> positive <= limits[rslt as int - 1]
  {
    rslt := 0;
    var start, middle, end := 0, 0, |limits|;
    while start < end
      invariant 0 <= start <= end <= |limits|
      invariant start > 0 ==> positive > limits[start - 1]
      invariant end < |limits| ==> positive <= limits[end]
      invariant (rslt == 0 && start < end) || rslt as int == start + 1 || rslt as int == end + 1
    {
      middle := start + (end - start) / 2;
      if positive <= limits[middle] {
        rslt := middle as Word + 1;
        end := middle;
      } else {
        rslt := middle as Word + 2;
        start := middle + 1;
      }
    }
  }

  /** `count_places`: the length of the numeral, the sign included. */
  method CountPlaces(num: Word) returns (rslt: Word)
    ensures rslt as int == |Numeral(num as int)|
  {
    PlacesAre(0);
    var positive := if num as int == INTEGER_MIN then AbsValue(num + 1) else AbsValue(num);
    rslt := PlacesOf(positive, PLACES_MAX);
    PlacesMeasure(num as int, positive as nat, rslt as nat - 1);
    if num < 0 {
      rslt := rslt + 1;
    }
  }

  /** Between two powers of ten there is one length; and the minimum is as long as its neighbour. */
  lemma {:induction false} PlacesMeasure(num: int, positive: nat, k: nat)
    requires INTEGER_MIN <= num <= INTEGER_MAX && k <= 18
    requires positive == if num == INTEGER_MIN then -(num + 1) else if num < 0 then -num else num
    requires (k > 0 ==> positive > PLACES_MAX[k - 1] as int) && (k < 18 ==> positive <= PLACES_MAX[k] as int)
    ensures |Numeral(num)| == k + 1 + if num < 0 then 1 else 0
  {
    var v := if num < 0 then -num else num;
    if k < 18 {
      PlacesAre(k);
    } else {
      PlacesAre(17);
      assert Pow10(19) == 10 * Pow10(18);
    }
    if k > 0 {
      PlacesAre(k - 1);
    }
    DigitsLength(v, k);
    DigitsLength(v, k + 1);
  }

  // ----- reversing in place

  /** The loop of `__str_reverse__` and of `strreverse`: the characters from `start` up to `end` change places. */
  method Reverse(a: array<char>, start: nat, end: nat)
    requires start <= end <= a.Length
    modifies a
    ensures a[start..end] == Reversed(old(a[start..end]))
    ensures a[..start] == old(a[..start]) && a[end..] == old(a[end..])
  {
    ghost var s := a[..];
    var i, j: int := start, end - 1;
    while i < j
      invariant start <= i <= end && i + j == start + end - 1
      invariant forall k :: 0 <= k < a.Length && (i <= k <= j || k < start || end <= k) ==> a[k] == s[k]
      invariant forall k :: start <= k < i ==> a[k] == s[start + end - 1 - k] && a[start + end - 1 - k] == s[k]
    {
      var tmp := a[i];
      a[i] := a[j];
      a[j] := tmp;
      i, j := i + 1, j - 1;
    }
    Turned(s, a[..], start, end, i);
  }

  /** Two halves that have changed places, with at most one character between them. */
  lemma {:induction false} Turned(s: string, t: string, start: nat, end: nat, i: nat)
    requires start <= end <= |s| == |t| && start <= i <= end && i >= start + end - 1 - i
    requires forall k :: start <= k < i ==> t[k] == s[start + end - 1 - k] && t[start + end - 1 - k] == s[k]
    requires forall k :: 0 <= k < |s| && (i <= k <= start + end - 1 - i || k < start || end <= k) ==> t[k] == s[k]
    ensures t[start..end] == Reversed(s[start..end]) && t[..start] == s[..start] && t[end..] == s[end..]
  {
    var u, v := s[start..end], t[start..end];
    forall k | 0 <= k < |u| ensures v[k] == u[|u| - 1 - k] {
      if start + k >= i {
        var l := end - 1 - k;
        assert t[start + k] == t[start + end - 1 - l];
      }
    }
    ReversedIs(u, v);
  }

  /** `strreverse` */
  method StrReverse(a: array<char>, start: int, end: int) returns (rslt: int)
    requires end <= a.Length
    modifies a
    ensures rslt == if 0 <= start <= end then 0 else -1
    ensures rslt == -1 ==> a[..] == old(a[..])
    ensures rslt == 0 ==>
      a[start..end] == Reversed(old(a[start..end])) && a[..start] == old(a[..start]) && a[end..] == old(a[end..])
  {
    if start < 0 || end < 0 {
      return -1;
    }
    rslt := 0;
    if start > end {
      rslt := -1;
    } else if start < end {
      Reverse(a, start, end);
    }
  }

  // ----- wtoa and itostr

  lemma {:induction false} NextDigit(v: nat, had: string)
    requires v > 0
    ensures Digits(v) + Reversed(had) == Digits(v / 10) + Reversed(had + [DigitChar(v % 10)])
  {
    ReversedAppend(had, [DigitChar(v % 10)]);
    assert Reversed([DigitChar(v % 10)]) == [DigitChar(v % 10)];
  }

  /** The loop of both printers: the digits come out lowest first; no more than `room` of them are written. */
  method PutDigits(value: nat, a: array<char>, start: nat, room: nat) returns (end: nat)
    requires start + (if |Digits(value)| < room then |Digits(value)| else room) <= a.Length
    modifies a
    ensures end == start + if |Digits(value)| < room then |Digits(value)| else room
    ensures Reversed(a[start..end]) == Digits(value)[|Digits(value)| - (end - start)..]
    ensures a[..start] == old(a[..start]) && a[end..] == old(a[end..])
  {
    var v := value;
    end := start;
    ghost var all := Digits(value);
    while v > 0 && end - start < room
      invariant start <= end <= a.Length && |Digits(v)| == |all| - (end - start) && end - start <= room
      invariant Digits(v) + Reversed(a[start..end]) == all
      invariant a[..start] == old(a[..start]) && a[end..] == old(a[end..])
    {
      var next := v / 10;
      ghost var had := a[start..end];
      a[end] := DigitChar(v - next * 10);
      end := end + 1;
      assert a[start..end] == had + [DigitChar(v % 10)];
      NextDigit(v, had);
      v := next;
    }
  }

  /** `wtoa`, in a buffer with room for what it writes: the numeral and, but for the minimum, its terminator.
      `places` is only compared with `len`. */
  method Wtoa(num: Word, places: int, buf: array<char>, len: int) returns (ok: bool)
    requires places <= len - 1 ==> |Numeral(num as int)| + (if num as int == INTEGER_MIN then 0 else 1) <= buf.Length
    modifies buf
    ensures ok <==> places <= len - 1
    ensures !ok ==> buf[..] == old(buf[..])
    ensures ok ==> var n := |Numeral(num as int)|;
      && buf[..n] == Numeral(num as int)
      && if num as int == INTEGER_MIN then buf[n..] == old(buf[n..])
        else buf[n] == '\0' && buf[n + 1..] == old(buf[n + 1..])
  {
    if places > len - 1 {
      return false;
    }
    ok := true;
    if num as int == INTEGER_MIN {
      MinimumNumeral(num as int);
      CopyMinimum(buf);
    } else {
      var end := PutNumber(num as int, buf);
      buf[end] := '\0';
    }
  }

  /** `strncpy` of the constant, without a terminator. */
  method CopyMinimum(buf: array<char>)
    requires |STR_INTEGER_MIN| <= buf.Length
    modifies buf
    ensures buf[..|STR_INTEGER_MIN|] == STR_INTEGER_MIN && buf[|STR_INTEGER_MIN|..] == old(buf[|STR_INTEGER_MIN|..])
  {
    for i := 0 to |STR_INTEGER_MIN|
      invariant buf[..i] == STR_INTEGER_MIN[..i] && buf[i..] == old(buf[i..])
    {
      buf[i] := STR_INTEGER_MIN[i];
    }
  }

  method PutNumber(num: int, buf: array<char>) returns (end: nat)
    requires |Numeral(num)| < buf.Length
    modifies buf
    ensures end == |Numeral(num)| && buf[..end] == Numeral(num) && buf[end..] == old(buf[end..])
  {
    if num == 0 {
      buf[0] := '0';
      end := 1;
    } else {
      end := PutSigned(num, buf);
    }
  }

  method PutSigned(num: int, buf: array<char>) returns (end: nat)
    requires num != 0 && |Numeral(num)| < buf.Length
    modifies buf
    ensures end == |Numeral(num)| && buf[..end] == Numeral(num) && buf[end..] == old(buf[end..])
  {
    var value := if num < 0 then -num else num;
    end := PutDigits(value, buf, 0, |Digits(value)|);
    if num < 0 {
      ghost var had := buf[..end];
      buf[end] := '-';
      end := end + 1;
      assert buf[..end] == had + ['-'];
      ReversedAppend(had, ['-']);
    }
    Reverse(buf, 0, end);
  }

  lemma {:induction false} TwoDigits(s: string, v: nat, w: nat, c: nat, d: nat)
    requires w > 0 && Digits(w) == s && c < 10 && d < 10 && v == 100 * w + 10 * c + d
    ensures Digits(v) == s + [DigitChar(c), DigitChar(d)]
  {
    assert v / 10 == 10 * w + c && v % 10 == d;
    assert v / 10 / 10 == w && v / 10 % 10 == c;
    assert Digits(v / 10) == s + [DigitChar(c)];
  }

  lemma {:induction false} FourDigits(s: string, v: nat, w: nat, c: nat, d: nat, e: nat, f: nat)
    requires w > 0 && Digits(w) == s && c < 10 && d < 10 && e < 10 && f < 10
      && v == 10000 * w + 1000 * c + 100 * d + 10 * e + f
    ensures Digits(v) == s + [DigitChar(c), DigitChar(d), DigitChar(e), DigitChar(f)]
  {
    var u := 100 * w + 10 * c + d;
    TwoDigits(s, u, w, c, d);
    TwoDigits(s + [DigitChar(c), DigitChar(d)], v, u, e, f);
  }

  lemma {:induction false} UpperHalf(v: nat)
    requires v == 9223372036
    ensures Digits(v) == "9223372036"
  {
    var u, w: nat := 922337, 92;
    assert Digits(9) == "9";
    assert Digits(w) == "92";
    FourDigits("92", u, w, 2, 3, 3, 7);
    FourDigits("922337", v, u, 2, 0, 3, 6);
  }

  lemma {:induction false} LowerHalf(s: string, v: nat, w: nat)
    requires w > 0 && Digits(w) == s && v == 1000000000 * w + 854775808
    ensures Digits(v) == s + "854775808"
  {
    var t, u := 10000 * w + 8547, 100000000 * w + 85477580;
    FourDigits(s, t, w, 8, 5, 4, 7);
    FourDigits(s + "8547", u, t, 7, 5, 8, 0);
    assert Digits(v) == Digits(u) + ['8'];
    assert s + "8547" + "7580" + "8" == s + "854775808";
  }

  lemma {:induction false} Spelled(s: string)
    requires s == "9223372036"
    ensures "-" + (s + "854775808") == STR_INTEGER_MIN
  {}

  lemma {:induction false} MinimumNumeral(num: int)
    requires num == INTEGER_MIN
    ensures Numeral(num) == STR_INTEGER_MIN
  {
    var w: nat := -num / 1000000000;
    UpperHalf(w);
    LowerHalf(Digits(w), -num, w);
    Spelled(Digits(w));
  }

  // ----- itostr

  /** What `itostr` leaves when it may write `n - 1` digits: the sign, and as many of the last digits. */
  function Shown(num: int, n: nat): string
    requires n >= 2
  {
    if num == 0 then "0" else
      var d := Digits(if num < 0 then -num else num);
      (if num < 0 then "-" else "") + (if |d| < n then d else d[|d| - (n - 1)..])
  }

  /** `itostr` on a buffer with room for what it writes, its terminator included. */
  method ItoStr(num: int, a: array<char>, n: int) returns (rslt: int)
    requires INTEGER_MIN < num <= INTEGER_MAX && (n >= 2 ==> |Shown(num, n)| < a.Length)
    modifies a
    ensures rslt == if n - 1 < 1 then -1 else 0
    ensures rslt == -1 ==> a[..] == old(a[..])
    ensures rslt == 0 ==> var m := |Shown(num, n)|;
      a[..m] == Shown(num, n) && a[m] == '\0' && a[m + 1..] == old(a[m + 1..])
  {
    if n - 1 < 1 {
      return -1;
    }
    rslt := 0;
    if num == 0 {
      a[0] := '0';
      a[1] := '\0';
    } else {
      var end := PutShown(num, a, n);
      a[end] := '\0';
    }
  }

  method PutShown(num: int, a: array<char>, n: nat) returns (end: nat)
    requires num != 0 && n >= 2 && |Shown(num, n)| < a.Length
    modifies a
    ensures end == |Shown(num, n)| && a[..end] == Shown(num, n) && a[end..] == old(a[end..])
  {
    var start, value := 0, num;
    if num < 0 {
      a[0] := '-';
      start := 1;
      value := -num;
    }
    end := PutReversed(value, a, start, n - 1);
    assert a[..end] == a[..start] + a[start..end];
  }

  method PutReversed(value: nat, a: array<char>, start: nat, room: nat) returns (end: nat)
    requires room > 0 && start + (if |Digits(value)| < room then |Digits(value)| else room) <= a.Length
    modifies a
    ensures end == start + if |Digits(value)| < room then |Digits(value)| else room
    ensures a[start..end] == Digits(value)[|Digits(value)| - (end - start)..]
    ensures a[..start] == old(a[..start]) && a[end..] == old(a[end..])
  {
    end := PutDigits(value, a, start, room);
    var rslt := StrReverse(a, start, end);
  }

  /** With room for all digits both printers agree. */
  lemma {:induction false} EnoughRoom(num: int, n: nat)
    requires n >= 2 && |Digits(if num < 0 then -num else num)| < n
    ensures Shown(num, n) == Numeral(num)
  {
    if num > 0 {
      assert "" + Digits(num) == Digits(num);
    }
  }

  /** What `itostr` writes, the terminator included, stays within the first `n` bytes unless the number is negative
      and has `n - 1` digits or more. */
  lemma {:induction false} ShownFits(num: int, n: nat)
    requires n >= 2
    ensures |Shown(num, n)| + 1 <= n <==> num >= 0 || |Digits(-num)| <= n - 2
  {
    assert num > 0 && |Digits(num)| >= n ==> |Digits(num)[|Digits(num)| - (n - 1)..]| == n - 1;
  }

  /** A concrete case: the two characters of -7 and their terminator, for a buffer of two. */
  lemma {:induction false} OneTooMany()
    ensures Shown(-7, 2) == Numeral(-7) == "-7" && |Shown(-7, 2)| + 1 == 3
  {
    assert Digits(7) == Digits(0) + [DigitChar(7)];
  }

  // ----- strtoi

  datatype Option<T> = None | Some(value: T)

  /** The string without its minus. */
  function Body(s: string): string {
    if s != "" && s[0] == '-' then s[1..] else s
  }

  /** What `strtoi` makes of a string: an optional minus, then digits only (possibly none). */
  function Parsed(s: string): Option<int> {
    if s == "" || exists c :: c in Body(s) && !IsDigit(c) then None
    else Some(if s[0] == '-' then 0 - Valued(Body(s)) else Valued(Body(s)))
  }

  /** `strtoi` on the first `n` characters; `before` is what the result variable held. */
  method StrToI(s: string, n: int, before: int) returns (rslt: int, value: int)
    requires n <= |s|
    ensures rslt == if n >= 1 && Parsed(s[..n]).Some? then 0 else -1
    ensures value == if rslt == 0 then Parsed(s[..n]).value else before
    ensures rslt == 0 <==>
      n >= 1 && forall i :: 0 <= i < n && !(i == 0 && s[0] == '-') ==> '0' <= s[i] <= '9'
  {
    value := before;
    if n < 1 {
      return -1, before;
    }
    rslt := 0;
    var v, start := 0, if s[0] == '-' then 1 else 0;
    ghost var body := s[start..n];
    assert s[..n] != "" && s[..n][0] == s[0] && body == Body(s[..n]);
    var i := start;
    while i < n
      invariant start <= i <= n && (forall c <- body[..i - start] :: IsDigit(c)) && v == Valued(body[..i - start])
      invariant forall j :: start <= j < i ==> '0' <= s[j] <= '9'
    {
      assert body[..i + 1 - start] == body[..i - start] + [s[i]] && s[i] in body;
      if s[i] > '9' || s[i] < '0' {
        assert s[i] in body && !IsDigit(s[i]);
        assert Parsed(s[..n]).None? && !(i == 0 && s[0] == '-') && !('0' <= s[i] <= '9');
        return -1, before;
      }
      v := v * 10 + (s[i] as int - 48);
      i := i + 1;
    }
    assert body[..n - start] == body;
    value := if start == 1 then 0 - v else v;
  }

  lemma {:induction false} PrefixSmaller(s: string, k: nat)
    requires k <= |s| && forall c <- s :: IsDigit(c)
    ensures (forall c <- s[..k] :: IsDigit(c)) && Valued(s[..k]) <= Valued(s)
    decreases |s|
  {
    if k < |s| {
      assert IsDigit(s[|s| - 1]);
      PrefixSmaller(s[..|s| - 1], k);
      assert s[..|s| - 1][..k] == s[..k];
    } else {
      assert s[..k] == s;
    }
  }

  /** How far the loop of `strtoi` comes: the digits at the front. */
  function Leading(s: string): (d: nat)
    ensures d <= |s| && (forall c <- s[..d] :: IsDigit(c)) && (d < |s| ==> !IsDigit(s[d]))
  {
    if s == "" || !IsDigit(s[0]) then 0 else
      var d := Leading(s[1..]);
      assert s[..d + 1] == [s[0]] + s[1..][..d];
      d + 1
  }

  /** On the way no value overflows if and only if the number that these digits stand for does not. */
  lemma {:induction false} StaysInRange(body: string)
    ensures (forall k :: 0 <= k <= Leading(body) ==>
              (forall c <- body[..k] :: IsDigit(c)) && Valued(body[..k]) <= INTEGER_MAX) <==>
                Valued(body[..Leading(body)]) <= INTEGER_MAX
  {
    var s := body[..Leading(body)];
    forall k | 0 <= k <= |s| ensures (forall c <- body[..k] :: IsDigit(c)) && Valued(body[..k]) <= Valued(s) {
      assert body[..k] == s[..k];
      PrefixSmaller(s, k);
    }
  }

  lemma {:induction false} BodyIs(num: int)
    ensures var s := Numeral(num);
      s != "" && (s[0] == '-' <==> num < 0) && (forall c <- Body(s) :: IsDigit(c))
        && Valued(Body(s)) == if num < 0 then -num else num
  {
    DigitsAre(if num < 0 then -num else num);
    if num == 0 {
      assert Valued("0") == Valued("0"[..0]) * 10;
    } else if num > 0 {
      assert Digits(num)[0] in Digits(num);
    } else {
      assert Numeral(num)[1..] == Digits(-num);
    }
  }

  /** Parsing a numeral gives the number back, and on the way no value leaves the machine's range. */
  lemma {:induction false} RoundTrip(num: int)
    requires INTEGER_MIN < num <= INTEGER_MAX
    ensures Parsed(Numeral(num)) == Some(num)
    ensures var body := Body(Numeral(num));
      forall k :: 0 <= k <= |body| ==> (forall c <- body[..k] :: IsDigit(c)) && Valued(body[..k]) <= INTEGER_MAX
  {
    BodyIs(num);
    var body := Body(Numeral(num));
    forall k | 0 <= k <= |body| ensures (forall c <- body[..k] :: IsDigit(c)) && Valued(body[..k]) <= INTEGER_MAX {
      PrefixSmaller(body, k);
    }
  }

  /** `wtoa` into a buffer of the size that `count_places` asks for, then `strtoi`: the number comes back. */
  method PrintAndParse(num: Word) returns (rslt: int, value: int)
    requires num as int != INTEGER_MIN
    ensures rslt == 0 && value == num as int
  {
    var places := CountPlaces(num);
    var buf := new char[places as int + 1];
    var ok := Wtoa(num, places as int, buf, places as int + 1);
    assert buf[..][..places as int] == Numeral(num as int);
    RoundTrip(num as int);
    rslt, value := StrToI(buf[..], places as int, 0);
  }
}
