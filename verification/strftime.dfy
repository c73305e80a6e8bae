/**
 * The part of Python's `datetime` that the tool relies on: a calendar date
 * and time of day with a UTC offset, and `strftime` restricted to the six
 * directives the tool's patterns use (%Y %m %d %H %M %S).  A pattern is a
 * sequence of pieces; `Scan` reads a formatted string back, which shows that
 * a formatted date determines the fields its pattern mentions.
 */
module Strftime {
  import opened Wrappers

  predicate IsLeapYear(year: int) {
    year % 4 == 0 && (year % 100 != 0 || year % 400 == 0)
  }

  function DaysInMonth(year: int, month: int): int {
    if month == 2 then (if IsLeapYear(year) then 29 else 28)
    else if month == 4 || month == 6 || month == 9 || month == 11 then 30
    else 31
  }

  /** The attributes of an aware `datetime`; `utcOffset` is in seconds. */
  datatype Fields = Fields(year: int, month: int, day: int,
                           hour: int, minute: int, second: int, utcOffset: int)

  /** The ranges Python's `datetime` enforces on construction. */
  predicate ValidFields(f: Fields) {
    && 1 <= f.year <= 9999
    && 1 <= f.month <= 12
    && 1 <= f.day <= DaysInMonth(f.year, f.month)
    && 0 <= f.hour < 24
    && 0 <= f.minute < 60
    && 0 <= f.second < 60
    && -86400 < f.utcOffset < 86400
  }

  type DateTime = f: Fields | ValidFields(f) witness Fields(1970, 1, 1, 0, 0, 0, 0)

  /** One piece of a strftime pattern: literal text or a zero-padded field. */
  datatype Piece = Text(text: string) | Year | Month | Day | Hour | Minute | Second

  function Pow10(n: nat): (r: nat)
    ensures r >= 1
  {
    if n == 0 then 1 else 10 * Pow10(n - 1)
  }

  predicate IsDigit(c: char) {
    '0' <= c <= '9'
  }

  predicate AllDigits(s: string) {
    forall i :: 0 <= i < |s| ==> IsDigit(s[i])
  }

  /** `n` in decimal, zero-padded to `width` digits. */
  function Decimal(n: nat, width: nat): (s: string)
    requires n < Pow10(width)
    ensures |s| == width && AllDigits(s)
  {
    if width == 0 then ""
    else
      assert n / 10 < Pow10(width - 1);
      Decimal(n / 10, width - 1) + [('0' as int + n % 10) as char]
  }

  /** The number a string of decimal digits denotes. */
  function DecimalValue(s: string): nat
    requires AllDigits(s)
  {
    if s == [] then 0
    else 10 * DecimalValue(s[..|s| - 1]) + (s[|s| - 1] as int - '0' as int)
  }

  lemma {:induction false} DecimalRoundTrip(n: nat, width: nat)
    requires n < Pow10(width)
    ensures DecimalValue(Decimal(n, width)) == n
  {
    if width > 0 {
      var s := Decimal(n, width);
      assert s[..|s| - 1] == Decimal(n / 10, width - 1);
      DecimalRoundTrip(n / 10, width - 1);
    }
  }

  /** Number of characters a piece always renders to. */
  function Width(p: Piece): nat {
    match p
    case Text(t) => |t|
    case Year => 4
    case _ => 2
  }

  function PatternWidth(ps: seq<Piece>): nat {
    if ps == [] then 0 else Width(ps[0]) + PatternWidth(ps[1..])
  }

  /** The value a field piece stands for. */
  function FieldValue(p: Piece, d: DateTime): nat
    requires !p.Text?
  {
    match p
    case Year => d.year
    case Month => d.month
    case Day => d.day
    case Hour => d.hour
    case Minute => d.minute
    case Second => d.second
  }

  function Render(p: Piece, d: DateTime): (s: string)
    ensures |s| == Width(p)
    ensures !p.Text? ==> AllDigits(s)
  {
    if p.Text? then p.text
    else
      assert FieldValue(p, d) < Pow10(Width(p));
      Decimal(FieldValue(p, d), Width(p))
  }

  /** `d.strftime(pattern)` for a pattern made of the pieces above. */
  function Format(ps: seq<Piece>, d: DateTime): string {
    if ps == [] then "" else Render(ps[0], d) + Format(ps[1..], d)
  }

  /** The values of the pattern's fields, in the order the pattern mentions them. */
  function FieldValues(ps: seq<Piece>, d: DateTime): seq<nat> {
    if ps == [] then []
    else if ps[0].Text? then FieldValues(ps[1..], d)
    else [FieldValue(ps[0], d)] + FieldValues(ps[1..], d)
  }

  /** Reads a string laid out by `ps`, returning its field values in order. */
  function Scan(ps: seq<Piece>, s: string): Option<seq<nat>> {
    if ps == [] then (if s == [] then Some([]) else None)
    else if |s| < Width(ps[0]) then None
    else
      var head, rest := s[..Width(ps[0])], s[Width(ps[0])..];
      match Scan(ps[1..], rest)
      case None => None
      case Some(values) =>
        if ps[0].Text? then (if head == ps[0].text then Some(values) else None)
        else if AllDigits(head) then Some([DecimalValue(head)] + values)
        else None
  }

  /** A formatted date is as wide as its pattern, whatever the date. */
  lemma {:induction false} FormatLength(ps: seq<Piece>, d: DateTime)
    ensures |Format(ps, d)| == PatternWidth(ps)
  {
    if ps != [] {
      FormatLength(ps[1..], d);
    }
  }

  /** Formatting a pattern made of two parts formats each part in turn. */
  lemma {:induction false} FormatAppend(ps: seq<Piece>, qs: seq<Piece>, d: DateTime)
    ensures Format(ps + qs, d) == Format(ps, d) + Format(qs, d)
    decreases |ps|
  {
    if ps == [] {
      assert ps + qs == qs;
    } else {
      assert (ps + qs)[1..] == ps[1..] + qs;
      FormatAppend(ps[1..], qs, d);
      var r := Render(ps[0], d);
      assert Format(ps + qs, d) == r + (Format(ps[1..], d) + Format(qs, d));
      assert r + (Format(ps[1..], d) + Format(qs, d)) == (r + Format(ps[1..], d)) + Format(qs, d);
    }
  }

  /** A pattern wrapped in literal text formats to the formatted pattern wrapped in that text. */
  lemma FormatWrapped(t: string, ps: seq<Piece>, d: DateTime)
    ensures Format([Text(t)] + ps + [Text(t)], d) == t + Format(ps, d) + t
  {
    FormatAppend([Text(t)] + ps, [Text(t)], d);
    assert ([Text(t)] + ps)[1..] == ps;
    assert Format([Text(t)], d) == t + "";
  }

  /** Reading a formatted date back gives the values of the fields it shows. */
  lemma {:induction false} ScanFormat(ps: seq<Piece>, d: DateTime)
    ensures Scan(ps, Format(ps, d)) == Some(FieldValues(ps, d))
  {
    if ps != [] {
      var s := Format(ps, d);
      var w := Width(ps[0]);
      assert s[..w] == Render(ps[0], d);
      assert s[w..] == Format(ps[1..], d);
      ScanFormat(ps[1..], d);
      if !ps[0].Text? {
        DecimalRoundTrip(FieldValue(ps[0], d), w);
      }
    }
  }

  lemma {:induction false} FieldValuesAgree(ps: seq<Piece>, d1: DateTime, d2: DateTime, p: Piece)
    requires FieldValues(ps, d1) == FieldValues(ps, d2)
    requires p in ps && !p.Text?
    ensures FieldValue(p, d1) == FieldValue(p, d2)
  {
    if ps[0] != p {
      assert p in ps[1..];
      if !ps[0].Text? {
        assert FieldValues(ps[1..], d1) == FieldValues(ps, d1)[1..];
        assert FieldValues(ps[1..], d2) == FieldValues(ps, d2)[1..];
      }
      FieldValuesAgree(ps[1..], d1, d2, p);
    } else {
      assert FieldValues(ps, d1)[0] == FieldValues(ps, d2)[0];
    }
  }

  /** Two dates that format alike under `ps` agree on every field `ps` shows. */
  lemma FormatDeterminesFields(ps: seq<Piece>, d1: DateTime, d2: DateTime, p: Piece)
    requires Format(ps, d1) == Format(ps, d2)
    requires p in ps && !p.Text?
    ensures FieldValue(p, d1) == FieldValue(p, d2)
  {
    ScanFormat(ps, d1);
    ScanFormat(ps, d2);
    FieldValuesAgree(ps, d1, d2, p);
  }

  /** The output is made of digits and of the pattern's own literal characters. */
  lemma {:induction false} FormatAlphabet(ps: seq<Piece>, d: DateTime, i: nat)
    requires i < |Format(ps, d)|
    ensures IsDigit(Format(ps, d)[i]) || exists p :: p in ps && p.Text? && Format(ps, d)[i] in p.text
  {
    var w := Width(ps[0]);
    if i < w {
      assert Format(ps, d)[i] == Render(ps[0], d)[i];
    } else {
      assert Format(ps, d)[i] == Format(ps[1..], d)[i - w];
      FormatAlphabet(ps[1..], d, i - w);
      var ch := Format(ps, d)[i];
      if !IsDigit(ch) {
        var p :| p in ps[1..] && p.Text? && ch in p.text;
        assert p in ps;
      }
    }
  }

  /** A formatted date is made of digits and characters drawn from the pattern's literal text. */
  lemma FormatWithin(ps: seq<Piece>, d: DateTime, allowed: set<char>)
    requires forall p, ch :: p in ps && p.Text? && ch in p.text ==> ch in allowed
    ensures forall i :: 0 <= i < |Format(ps, d)| ==> IsDigit(Format(ps, d)[i]) || Format(ps, d)[i] in allowed
  {
    forall i | 0 <= i < |Format(ps, d)|
      ensures IsDigit(Format(ps, d)[i]) || Format(ps, d)[i] in allowed
    {
      FormatAlphabet(ps, d, i);
    }
  }

  /** Fields a pattern does not show, the UTC offset included, do not affect the output. */
  lemma {:induction false} FormatIgnoresOtherFields(ps: seq<Piece>, d1: DateTime, d2: DateTime)
    requires forall p :: p in ps && !p.Text? ==> FieldValue(p, d1) == FieldValue(p, d2)
    ensures Format(ps, d1) == Format(ps, d2)
  {
    if ps != [] {
      assert ps[0] in ps;
      FormatIgnoresOtherFields(ps[1..], d1, d2);
    }
  }
}
