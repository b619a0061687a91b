/**
 * Reading the cursor position back from the terminal: the editor sends a
 * Device Status Report request (ECMA-48 section 8.3.35, parameter 6) and
 * the terminal answers with a Cursor Position Report `ESC [ row ; col R`
 * (ECMA-48 section 8.3.14). The reply is collected into a 32-byte buffer up
 * to the `R`, checked for its `ESC [` introducer, and its two numbers are
 * read as by `sscanf(.., "%d;%d", ..)` (C11 section 7.21.6.2).
 *
 * The terminal's answer is modelled as `stream`: the bytes that successive
 * one-byte reads deliver before a read comes back without a byte.
 */
module CursorReport {
  import opened Terminal
  import opened Wrappers

  const Nul: char := '\0'
  /** DSR 6: "report the active position". */
  const StatusQuery: string := [Esc] + "[6n"
  /** The size of the reply buffer, terminator included. */
  const BufSize: nat := 32

  // ---------------------------------------------------------------------
  // Collecting the reply.

  /**
   * The collection loop as written: its condition `1 < sizeof(buf) - 1` is
   * always true, so it only stops at an `R` or when the terminal stops
   * sending, however many bytes that takes.
   */
  function CollectUnbounded(stream: seq<char>): (buf: seq<char>)
    ensures buf <= stream && forall j :: 0 <= j < |buf| ==> buf[j] != 'R'
    ensures |buf| == |stream| || stream[|buf|] == 'R'
  {
    if stream == [] || stream[0] == 'R' then []
    else [stream[0]] + CollectUnbounded(stream[1..])
  }

  /**
   * A reply of 32 bytes or more with no `R` among its first 32 makes the
   * as-written loop store 32 bytes or more, so the index at which the
   * terminator is then stored lies outside the 32-byte buffer.
   */
  lemma {:induction false} UnboundedCollectOverruns(stream: seq<char>)
    requires |stream| >= BufSize && forall j :: 0 <= j < BufSize ==> stream[j] != 'R'
    ensures |CollectUnbounded(stream)| >= BufSize
  {
  }

  /** A concrete reply that overruns: 32 digits and no `R`. */
  lemma {:induction false} OverrunWitness()
    ensures |CollectUnbounded(seq(32, _ => '1'))| == 32
  {
    var s := seq(32, _ => '1');
    UnboundedCollectOverruns(s);
  }

  /**
   * The loop with its evident bound: at most `limit` bytes are stored;
   * collection stops at an `R` (not stored) or when no byte arrives.
   */
  function CollectAtMost(stream: seq<char>, limit: nat): (buf: seq<char>)
    ensures buf <= stream && |buf| <= limit
    ensures forall j :: 0 <= j < |buf| ==> buf[j] != 'R'
    ensures |buf| == |stream| || |buf| == limit || stream[|buf|] == 'R'
  {
    if limit == 0 || stream == [] || stream[0] == 'R' then []
    else [stream[0]] + CollectAtMost(stream[1..], limit - 1)
  }

  /** The reply as collected, leaving room for the terminator. */
  function Collect(stream: seq<char>): (buf: seq<char>)
    ensures |buf| < BufSize
  {
    CollectAtMost(stream, BufSize - 1)
  }

  /**
   * The three ways collection can stop determine what was collected: any
   * prefix free of `R` that ends at the end of the stream, at the limit, or
   * just before an `R` is the collected reply.
   */
  lemma {:induction false} CollectAtMostIs(stream: seq<char>, limit: nat, k: nat)
    requires k <= limit && k <= |stream|
    requires forall j :: 0 <= j < k ==> stream[j] != 'R'
    requires k == |stream| || k == limit || stream[k] == 'R'
    ensures CollectAtMost(stream, limit) == stream[..k]
  {
    if k > 0 {
      CollectAtMostIs(stream[1..], limit - 1, k - 1);
      assert stream[..k] == [stream[0]] + stream[1..][..k - 1];
    }
  }

  /** The bound changes nothing for a reply that fits in the buffer. */
  lemma {:induction false} BoundAgreesWhenReplyFits(stream: seq<char>)
    requires |CollectUnbounded(stream)| < BufSize
    ensures Collect(stream) == CollectUnbounded(stream)
  {
    var buf := CollectUnbounded(stream);
    assert buf == stream[..|buf|];
    assert forall j :: 0 <= j < |buf| ==> stream[j] == buf[j];
    CollectAtMostIs(stream, BufSize - 1, |buf|);
  }

  // ---------------------------------------------------------------------
  // sscanf("%d;%d") over the collected reply.

  /**
   * The characters C's `isspace` accepts in the "C" locale; none of them
   * can be part of a number.
   */
  function IsSpace(c: char): (b: bool)
    ensures b ==> !IsDigit(c) && c != '-' && c != '+'
  {
    c == ' ' || c == '\t' || c == '\n' || c == '\U{B}' || c == '\U{C}' || c == '\r'
  }

  predicate IsDigit(c: char)
  {
    '0' <= c <= '9'
  }

  /** The text `%d` sees after its leading white space is skipped. */
  function SkipSpace(s: seq<char>): (t: seq<char>)
    ensures |t| <= |s| && t == s[|s| - |t|..]
    ensures forall i :: 0 <= i < |s| - |t| ==> IsSpace(s[i])
    ensures t == [] || !IsSpace(t[0])
  {
    if s != [] && IsSpace(s[0]) then SkipSpace(s[1..]) else s
  }

  /** The length of the run of decimal digits that starts `s`. */
  function DigitRun(s: seq<char>): (n: nat)
    ensures n <= |s|
    ensures forall i :: 0 <= i < n ==> IsDigit(s[i])
    ensures n == |s| || !IsDigit(s[n])
  {
    if s != [] && IsDigit(s[0]) then 1 + DigitRun(s[1..]) else 0
  }

  function DigitValue(c: char): (d: nat)
    requires IsDigit(c)
    ensures d < 10
  {
    c as int - '0' as int
  }

  /** The value of a string of decimal digits, most significant first. */
  function DigitsValue(ds: seq<char>): nat
    requires forall i :: 0 <= i < |ds| ==> IsDigit(ds[i])
  {
    if ds == [] then 0
    else DigitsValue(ds[..|ds| - 1]) * 10 + DigitValue(ds[|ds| - 1])
  }

  /** The digits `%d` reads after the sign: at least one, as many as follow. */
  function ScanDigits(u: seq<char>): (r: Option<(nat, seq<char>)>)
    ensures r.Some? <==> u != [] && IsDigit(u[0])
    ensures r.Some? ==> |r.value.1| < |u| && r.value.1 == u[|u| - |r.value.1|..]
    ensures r.Some? ==> r.value.1 == [] || !IsDigit(r.value.1[0])
  {
    var n := DigitRun(u);
    if n == 0 then None else Some((DigitsValue(u[..n]), u[n..]))
  }

  /** Text a `%d` can read a number from: a digit, or a sign and a digit. */
  predicate StartsNumber(t: seq<char>)
  {
    || (t != [] && IsDigit(t[0]))
    || (|t| >= 2 && (t[0] == '-' || t[0] == '+') && IsDigit(t[1]))
  }

  /** What `%d` does once white space is skipped: an optional sign, then digits. */
  function ScanSigned(t: seq<char>): (r: Option<(int, seq<char>)>)
    ensures r.Some? <==> StartsNumber(t)
    ensures r.Some? ==> |r.value.1| < |t|
    ensures r.Some? ==> r.value.1 == [] || !IsDigit(r.value.1[0])
    ensures r.Some? && r.value.0 < 0 ==> t[0] == '-'
  {
    if t != [] && (t[0] == '-' || t[0] == '+') then
      match ScanDigits(t[1..])
      case None => None
      case Some((v, rest)) => Some((if t[0] == '-' then -(v as int) else v, rest))
    else
      match ScanDigits(t)
      case None => None
      case Some((v, rest)) => Some((v, rest))
  }

  /**
   * One `%d` conversion: white space, an optional sign, then at least one
   * digit, read as far as the digits go. Yields the value and the rest.
   */
  function ScanInt(s: seq<char>): (r: Option<(int, seq<char>)>)
    ensures r.Some? <==> StartsNumber(SkipSpace(s))
    ensures r.Some? ==> |r.value.1| < |s|
    ensures r.Some? ==> r.value.1 == [] || !IsDigit(r.value.1[0])
  {
    ScanSigned(SkipSpace(s))
  }

  /**
   * `sscanf(s, "%d;%d", &row, &col) == 2`: a number, a `;` straight after
   * it, and a second number; whatever follows is not looked at.
   */
  function ScanRowCol(s: seq<char>): (r: Option<(int, int)>)
    ensures r.Some? ==> ScanInt(s).Some? && r.value.0 == ScanInt(s).value.0
    ensures r.Some? ==>
      var rest := ScanInt(s).value.1;
      && rest != [] && rest[0] == ';'
      && ScanInt(rest[1..]).Some? && r.value.1 == ScanInt(rest[1..]).value.0
  {
    match ScanInt(s)
    case None => None
    case Some((row, rest)) =>
      if rest == [] || rest[0] != ';' then None
      else
        match ScanInt(rest[1..])
        case None => None
        case Some((col, _)) => Some((row, col))
  }

  /** The C string that starts `s`: everything before the first NUL. */
  function CString(s: seq<char>): (t: seq<char>)
    ensures t <= s && Nul !in t
    ensures |t| == |s| || s[|t|] == Nul
  {
    if s == [] || s[0] == Nul then [] else [s[0]] + CString(s[1..])
  }

  /** A terminator placed after `a` hides whatever follows it. */
  lemma {:induction false} CStringStopsAtNul(a: seq<char>, b: seq<char>)
    ensures CString(a + [Nul] + b) == CString(a)
  {
    if a != [] && a[0] != Nul {
      assert (a + [Nul] + b)[1..] == a[1..] + [Nul] + b;
      CStringStopsAtNul(a[1..], b);
    } else {
      assert (a + [Nul] + b)[0] == Nul;
    }
  }

  /**
   * The check of the collected reply: it must start with `ESC [`, and the
   * text after those two bytes must scan as `%d;%d`.
   */
  function ParseReply(body: seq<char>): (r: Option<(int, int)>)
    ensures r.Some? ==> |body| >= 2 && body[0] == Esc && body[1] == '['
  {
    if |body| < 2 || body[0] != Esc || body[1] != '[' then None
    else ScanRowCol(CString(body[2..]))
  }

  /**
   * getCursorPosition without the terminal: send the status query (`writeOk`
   * says whether the whole query was written), read the reply byte by byte
   * into a 32-byte buffer until `R`, the end of the answer, or 31 bytes,
   * terminate it, and parse it.
   */
  method GetCursorPosition(writeOk: bool, stream: seq<char>) returns (query: string, r: Option<(int, int)>)
    ensures query == StatusQuery
    ensures r == if writeOk then ParseReply(Collect(stream)) else None
  {
    query := StatusQuery;
    if !writeOk {
      r := None;
      return;
    }
    var buf := new char[BufSize];
    var i := 0;
    while i < BufSize - 1
      invariant 0 <= i <= BufSize - 1 && i <= |stream|
      invariant buf[..i] == stream[..i]
      invariant forall j :: 0 <= j < i ==> stream[j] != 'R'
    {
      if i == |stream| {
        break;  // the read returned no byte
      }
      buf[i] := stream[i];
      if buf[i] == 'R' {
        break;
      }
      i := i + 1;
    }
    buf[i] := Nul;
    CollectAtMostIs(stream, BufSize - 1, i);
    if buf[0] != Esc || buf[1] != '[' {
      r := None;
      return;
    }
    ghost var body := stream[..i];
    assert i >= 2 && buf[..][..i] == body;
    TerminatedText(buf[..], i, body);
    r := ScanRowCol(CString(buf[2..]));
  }

  /** The text `sscanf` reads from the terminated buffer is the collected reply's. */
  lemma {:induction false} TerminatedText(a: seq<char>, i: nat, body: seq<char>)
    requires 2 <= i < |a| && a[..i] == body && a[i] == Nul
    ensures CString(a[2..]) == CString(body[2..])
  {
    assert a[2..] == body[2..] + [Nul] + a[i + 1..];
    CStringStopsAtNul(body[2..], a[i + 1..]);
  }

  // ---------------------------------------------------------------------
  // Round trip: a well-formed report parses back to its coordinates.

  function Digit(d: nat): (c: char)
    requires d < 10
    ensures IsDigit(c)
  {
    ('0' as int + d) as char
  }

  /** A non-negative number in decimal, without leading zeros. */
  function Decimal(n: nat): (s: seq<char>)
    ensures |s| >= 1
    ensures forall i :: 0 <= i < |s| ==> IsDigit(s[i])
  {
    if n < 10 then [Digit(n)] else Decimal(n / 10) + [Digit(n % 10)]
  }

  /** The Cursor Position Report a terminal sends for (row, col). */
  function Report(row: nat, col: nat): seq<char>
  {
    ReportBody(row, col) + ['R']
  }

  /** The report up to, not including, its final `R`. */
  function ReportBody(row: nat, col: nat): seq<char>
  {
    [Esc, '['] + ReportText(row, col)
  }

  /** The parameters of the report: `row;col`. */
  function ReportText(row: nat, col: nat): seq<char>
  {
    Decimal(row) + ([';'] + Decimal(col))
  }

  lemma {:induction false} DecimalValue(n: nat)
    ensures DigitsValue(Decimal(n)) == n
  {
    if n >= 10 {
      DecimalValue(n / 10);
      var s := Decimal(n);
      assert s[..|s| - 1] == Decimal(n / 10);
    }
  }

  lemma {:induction false} ScanDigitsOf(ds: seq<char>, rest: seq<char>)
    requires |ds| >= 1 && forall i :: 0 <= i < |ds| ==> IsDigit(ds[i])
    requires rest == [] || !IsDigit(rest[0])
    ensures ScanDigits(ds + rest) == Some((DigitsValue(ds), rest))
  {
    var s := ds + rest;
    var k := DigitRun(s);
    assert forall j :: 0 <= j < |ds| ==> s[j] == ds[j];
    assert rest != [] ==> s[|ds|] == rest[0];
    assert k == |ds|;
    assert s[..k] == ds && s[k..] == rest;
  }

  /** `%d` reads back a run of digits, stopping at the first non-digit. */
  lemma {:induction false} ScanIntDigits(ds: seq<char>, rest: seq<char>)
    requires |ds| >= 1 && forall i :: 0 <= i < |ds| ==> IsDigit(ds[i])
    requires rest == [] || !IsDigit(rest[0])
    ensures ScanInt(ds + rest) == Some((DigitsValue(ds), rest))
  {
    assert (ds + rest)[0] == ds[0];
    ScanIntUnsigned(ds + rest);
    ScanDigitsOf(ds, rest);
  }

  /** Text that starts with a digit has neither white space nor a sign to skip. */
  lemma {:induction false} ScanIntUnsigned(s: seq<char>)
    requires s != [] && IsDigit(s[0])
    ensures ScanInt(s) == ScanDigits(s)
  {
    assert !IsSpace(s[0]) && s[0] != '-' && s[0] != '+';
    assert SkipSpace(s) == s;
  }

  /** `%d` skips any white space before the number. */
  lemma {:induction false} ScanIntSkipsSpace(c: char, s: seq<char>)
    requires IsSpace(c)
    ensures ScanInt([c] + s) == ScanInt(s)
  {
    assert ([c] + s)[1..] == s;
    assert SkipSpace([c] + s) == SkipSpace(s);
  }

  /** A sign is not white space, so `%d` reads it as the sign. */
  lemma {:induction false} ScanIntAfterSign(sign: char, u: seq<char>)
    requires sign == '-' || sign == '+'
    ensures ScanInt([sign] + u) == ScanSigned([sign] + u)
    ensures ([sign] + u)[1..] == u
  {
    assert SkipSpace([sign] + u) == [sign] + u;
  }

  /** A sign before the digits: `-` negates the value, `+` leaves it as it is. */
  lemma {:induction false} ScanIntSigned(sign: char, ds: seq<char>, rest: seq<char>)
    requires sign == '-' || sign == '+'
    requires |ds| >= 1 && forall i :: 0 <= i < |ds| ==> IsDigit(ds[i])
    requires rest == [] || !IsDigit(rest[0])
    ensures ScanInt([sign] + (ds + rest))
         == Some((if sign == '-' then -(DigitsValue(ds) as int) else DigitsValue(ds), rest))
  {
    var u := ds + rest;
    ScanDigitsOf(ds, rest);
    ScanSignedOf(sign, u, DigitsValue(ds), rest);
    ScanIntAfterSign(sign, u);
  }

  lemma {:induction false} ScanSignedOf(sign: char, u: seq<char>, v: nat, rest: seq<char>)
    requires sign == '-' || sign == '+'
    requires ScanDigits(u) == Some((v, rest))
    ensures ScanSigned([sign] + u) == Some((if sign == '-' then -(v as int) else v, rest))
  {
    assert ([sign] + u)[1..] == u;
  }

  lemma {:induction false} ScanRowColOf(s: seq<char>, row: int, rest: seq<char>, col: int)
    requires ScanInt(s) == Some((row, rest)) && rest != [] && rest[0] == ';'
    requires ScanInt(rest[1..]).Some? && ScanInt(rest[1..]).value.0 == col
    ensures ScanRowCol(s) == Some((row, col))
  {
  }

  /** `%d;%d` reads back two digit runs around a `;`. */
  lemma {:induction false} ScanRowColDigits(dr: seq<char>, dc: seq<char>)
    requires |dr| >= 1 && forall i :: 0 <= i < |dr| ==> IsDigit(dr[i])
    requires |dc| >= 1 && forall i :: 0 <= i < |dc| ==> IsDigit(dc[i])
    ensures ScanRowCol(dr + ([';'] + dc)) == Some((DigitsValue(dr), DigitsValue(dc)))
  {
    var rest := [';'] + dc;
    ScanIntDigits(dr, rest);
    assert rest[1..] == dc + [];
    ScanIntDigits(dc, []);
    ScanRowColOf(dr + rest, DigitsValue(dr), rest, DigitsValue(dc));
  }

  /** The body of a report holds no `R` and its parameters no NUL. */
  lemma {:induction false} ReportBodyPlain(row: nat, col: nat)
    ensures forall j :: 0 <= j < |ReportBody(row, col)| ==> ReportBody(row, col)[j] != 'R'
    ensures Nul !in ReportText(row, col)
  {
    var dr, dc := Decimal(row), Decimal(col);
    var text := ReportText(row, col);
    forall j | 0 <= j < |text| ensures text[j] != 'R' && text[j] != Nul {
      if j < |dr| {
        assert text[j] == dr[j];
      } else if |dr| < j {
        assert text[j] == dc[j - 1 - |dr|];
      }
    }
    assert forall j :: 2 <= j < |ReportBody(row, col)| ==> ReportBody(row, col)[j] == text[j - 2];
    assert Nul !in text by {
      assert forall j :: 0 <= j < |text| ==> text[j] != Nul;
    }
  }

  /** The collected reply to a report that fits is the report without its `R`. */
  lemma {:induction false} CollectReport(row: nat, col: nat, tail: seq<char>)
    requires |Report(row, col)| <= BufSize
    ensures Collect(Report(row, col) + tail) == ReportBody(row, col)
  {
    var body := ReportBody(row, col);
    var stream := Report(row, col) + tail;
    assert stream == body + (['R'] + tail);
    assert stream[..|body|] == body;
    assert stream[|body|] == 'R';
    assert forall j :: 0 <= j < |body| ==> stream[j] == body[j];
    ReportBodyPlain(row, col);
    CollectAtMostIs(stream, BufSize - 1, |body|);
  }

  /** A report body passes the `ESC [` check and scans back to its numbers. */
  lemma {:induction false} ParseReportBody(row: nat, col: nat)
    ensures ParseReply(ReportBody(row, col)) == Some((row, col))
  {
    var text := ReportText(row, col);
    assert ReportBody(row, col)[2..] == text;
    ReportBodyPlain(row, col);
    CStringNoNul(text);
    ScanRowColDigits(Decimal(row), Decimal(col));
    DecimalValue(row);
    DecimalValue(col);
  }

  /**
   * A report that fits in the buffer is collected up to its `R` and parses
   * back to the coordinates it carries, whatever the terminal sends after it.
   */
  lemma {:induction false} ReportRoundTrip(row: nat, col: nat, tail: seq<char>)
    requires |Report(row, col)| <= BufSize
    ensures ParseReply(Collect(Report(row, col) + tail)) == Some((row, col))
  {
    CollectReport(row, col, tail);
    ParseReportBody(row, col);
  }

  lemma {:induction false} CStringNoNul(s: seq<char>)
    requires Nul !in s
    ensures CString(s) == s
  {
    if s != [] {
      assert Nul !in s[1..] by {
        assert forall c :: c in s[1..] ==> c in s;
      }
      CStringNoNul(s[1..]);
    }
  }
}
