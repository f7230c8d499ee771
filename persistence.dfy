/** What main.c:133-140 appends to the prime file: the values found in this session, each
    printed with `"%" PRIu64 "\n"`, i.e. as an unsigned decimal number on a line of its own.
    A reader for that format is given alongside, so that what is written can be shown to
    read back as the values that were written. */
module Persistence {

  predicate IsDigit(ch: char)
  {
    '0' <= ch <= '9'
  }

  function DigitChar(d: nat): (ch: char)
    requires d < 10
    ensures IsDigit(ch)
  {
    (('0' as int) + d) as char
  }

  function DigitValue(ch: char): (d: nat)
    requires IsDigit(ch)
    ensures d < 10
  {
    (ch as int) - ('0' as int)
  }

  /** The `PRIu64` rendering of `n`: its decimal digits, most significant first, with no
      leading zero (0 itself is "0"). */
  function Decimal(n: nat): (r: string)
    decreases n
  {
    if n < 10 then [DigitChar(n)] else Decimal(n / 10) + [DigitChar(n % 10)]
  }

  /** `Decimal` gives a non-empty run of digits with no leading zero. */
  lemma {:induction false} DecimalShape(n: nat)
    ensures |Decimal(n)| >= 1
    ensures forall k :: 0 <= k < |Decimal(n)| ==> IsDigit(Decimal(n)[k])
    ensures Decimal(n)[0] == '0' ==> n == 0
    decreases n
  {
    if n >= 10 {
      DecimalShape(n / 10);
    }
  }

  /** The value of a run of digits, most significant first. */
  function DecimalValue(s: string): nat
    requires forall k :: 0 <= k < |s| ==> IsDigit(s[k])
  {
    if s == [] then 0 else 10 * DecimalValue(s[..|s| - 1]) + DigitValue(s[|s| - 1])
  }

  lemma {:induction false} DecimalRoundTrip(n: nat)
    ensures forall k :: 0 <= k < |Decimal(n)| ==> IsDigit(Decimal(n)[k])
    ensures DecimalValue(Decimal(n)) == n
    decreases n
  {
    DecimalShape(n);
    if n >= 10 {
      DecimalRoundTrip(n / 10);
      var d := Decimal(n);
      assert d[..|d| - 1] == Decimal(n / 10);
    }
  }

  /** The lines written for `vals`, one `Decimal` value plus `"\n"` each, in order. */
  function Lines(vals: seq<nat>): string
  {
    if vals == [] then "" else Decimal(vals[0]) + "\n" + Lines(vals[1..])
  }

  lemma {:induction false} LinesAppend(a: seq<nat>, b: seq<nat>)
    ensures Lines(a + b) == Lines(a) + Lines(b)
  {
    if a == [] {
      assert a + b == b;
    } else {
      assert (a + b)[0] == a[0] && (a + b)[1..] == a[1..] + b;
      LinesAppend(a[1..], b);
    }
  }

  /** The index of the first `'\n'` in `t`, or `|t|` when there is none. */
  function LineEnd(t: string): (k: nat)
    ensures k <= |t|
    ensures forall j :: 0 <= j < k ==> t[j] != '\n'
    ensures k < |t| ==> t[k] == '\n'
  {
    if t == [] || t[0] == '\n' then 0 else 1 + LineEnd(t[1..])
  }

  /** Reads a file of decimal lines back into the values. Lines that are not all digits
      read as 0; files written by `Lines` contain none. */
  function ReadLines(t: string): seq<nat>
    decreases |t|
  {
    if t == [] then []
    else
      var k := LineEnd(t);
      var line := t[..k];
      var v := if forall j :: 0 <= j < |line| ==> IsDigit(line[j]) then DecimalValue(line) else 0;
      [v] + (if k < |t| then ReadLines(t[k + 1..]) else [])
  }

  /** What is written reads back as the values written. */
  lemma {:induction false} LinesRoundTrip(vals: seq<nat>)
    ensures ReadLines(Lines(vals)) == vals
  {
    if vals != [] {
      var d := Decimal(vals[0]);
      var rest := Lines(vals[1..]);
      var t := Lines(vals);
      DecimalRoundTrip(vals[0]);
      assert t == d + ("\n" + rest);
      LineEndAfter(d, "\n" + rest);
      assert t[..|d|] == d && t[|d| + 1..] == rest;
      LinesRoundTrip(vals[1..]);
    }
  }

  lemma {:induction false} LineEndAfter(d: string, rest: string)
    requires forall k :: 0 <= k < |d| ==> IsDigit(d[k])
    requires rest != [] && rest[0] == '\n'
    ensures LineEnd(d + rest) == |d|
  {
    if d != [] {
      assert (d + rest)[0] == d[0] && (d + rest)[1..] == d[1..] + rest;
      LineEndAfter(d[1..], rest);
    } else {
      assert d + rest == rest;
    }
  }

  /** The file is only ever appended to (`fopen(filename, "a")`): after a session that
      found `added`, a file that held the lines of `earlier` reads back as
      `earlier + added`. */
  lemma ResumeRoundTrip(earlier: seq<nat>, added: seq<nat>)
    ensures ReadLines(Lines(earlier) + Lines(added)) == earlier + added
  {
    LinesAppend(earlier, added);
    LinesRoundTrip(earlier + added);
  }

  /** The countdown loop of main.c:135-138: `for (i = counter; i > 0; i--)` writes
      `ram_buffer[found - i]`, i.e. the last `counter` stored values in ascending index
      order. */
  method AppendedText(buf: array<nat>, found: nat, counter: nat) returns (out: string)
    requires counter <= found <= buf.Length
    ensures out == Lines(buf[found - counter..found])
  {
    out := "";
    var i: nat := counter;
    while i > 0
      invariant i <= counter
      invariant out == Lines(buf[found - counter..found - i])
    {
      assert buf[found - counter..found - i + 1] == buf[found - counter..found - i] + [buf[found - i]];
      LinesAppend(buf[found - counter..found - i], [buf[found - i]]);
      out := out + Decimal(buf[found - i]) + "\n";
      i := i - 1;
    }
  }
}
