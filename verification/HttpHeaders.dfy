/** HTTP support: reading sizes out of response headers, and fetching byte ranges. */
module HttpHeaders {
  import opened Wrappers
  import opened Text

  const TWO_64: nat := 0x1_0000_0000_0000_0000

  // ---------------------------------------------------------------- parsing

  /** The first position of `c` at or after `from`, or the length. */
  function IndexOf(s: string, c: char, from: nat): (i: nat)
    requires from <= |s|
    ensures from <= i <= |s| && (i < |s| ==> s[i] == c) && forall k :: from <= k < i ==> s[k] != c
    decreases |s| - from
  {
    if from == |s| || s[from] == c then from else IndexOf(s, c, from + 1)
  }

  /** Lines as getline yields them: a final newline starts no further line. */
  function Lines(s: string): seq<string>
    decreases |s|
  {
    if s == [] then []
    else
      var i := IndexOf(s, '\n', 0);
      if i == |s| then [s] else [s[..i]] + Lines(s[i + 1..])
  }

  function StripCr(line: string): string {
    if line != [] && line[|line| - 1] == '\r' then line[..|line| - 1] else line
  }

  /** Name and value of a header line, both trimmed. */
  function Split(line: string): Option<(string, string)> {
    var stripped := StripCr(line);
    var colon := IndexOf(stripped, ':', 0);
    if colon == |stripped| then None else Some((Trim(stripped[..colon]), Trim(stripped[colon + 1..])))
  }

  /** The value of the first header with this name, up to case. */
  function FirstValue(lines: seq<string>, name: string): Option<string> {
    if lines == [] then None
    else match Split(lines[0])
      case Some((n, v)) => if CIEquals(n, name) then Some(v) else FirstValue(lines[1..], name)
      case None => FirstValue(lines[1..], name)
  }

  function DigitPrefix(s: string): (n: nat)
    ensures n <= |s| && forall k :: 0 <= k < n ==> IsDigit(s[k])
    ensures n < |s| ==> !IsDigit(s[n])
  {
    if s == [] || !IsDigit(s[0]) then 0 else 1 + DigitPrefix(s[1..])
  }

  lemma PrefixDigits(s: string, n: nat)
    requires n <= |s| && forall k :: 0 <= k < n ==> IsDigit(s[k])
    ensures forall c | c in s[..n] :: IsDigit(c)
  {
  }

  /** The digits `s` begins with, as a number below 2^64. */
  function Unsigned(s: string): Option<nat> {
    var n := DigitPrefix(s);
    PrefixDigits(s, n);
    if n == 0 || NatOf(s[..n]) >= TWO_64 then None else Some(NatOf(s[..n]))
  }

  /** std::stoull: leading spaces, an optional sign, then digits; a negative number wraps. */
  function Stoull(s: string): Option<nat> {
    var t := TrimLeft(s);
    var negative := t != [] && t[0] == '-';
    var body := if t != [] && (t[0] == '-' || t[0] == '+') then t[1..] else t;
    match Unsigned(body)
    case None => None
    case Some(n) => Some(if negative then (TWO_64 - n) % TWO_64 else n)
  }

  function ContentLength(headers: string): Option<nat> {
    match FirstValue(Lines(headers), "Content-Length")
    case None => None
    case Some(v) => Stoull(v)
  }

  /** What follows position `slash`, when it names a total. */
  function TextAfter(value: string, slash: nat): Option<string>
    requires slash <= |value|
  {
    if slash == |value| then None
    else
      var total := Trim(value[slash + 1..]);
      if total == "" || total == "*" then None else Some(total)
  }

  /** What follows the slash of a Content-Range value. */
  function TotalText(value: string): Option<string> {
    TextAfter(value, IndexOf(value, '/', 0))
  }

  function TotalOf(value: string): Option<nat> {
    match TotalText(value)
    case None => None
    case Some(total) => Stoull(total)
  }

  function ContentRangeTotal(headers: string): Option<nat> {
    match FirstValue(Lines(headers), "Content-Range")
    case None => None
    case Some(v) => TotalOf(v)
  }

  lemma FirstLine(headers: string)
    requires headers != []
    ensures var end := IndexOf(headers, '\n', 0);
      Lines(headers) == [headers[..end]] + Lines(if end == |headers| then [] else headers[end + 1..])
  {
    var end := IndexOf(headers, '\n', 0);
    if end == |headers| { assert headers[..end] == headers && Lines([]) == []; }
  }

  lemma FirstValueCons(line: string, rest: seq<string>, name: string)
    ensures FirstValue([line] + rest, name) ==
      if Split(line).Some? && CIEquals(Split(line).value.0, name) then Some(Split(line).value.1)
      else FirstValue(rest, name)
  {
    assert ([line] + rest)[0] == line && ([line] + rest)[1..] == rest;
  }

  method SplitLine(line: string) returns (r: Option<(string, string)>)
    ensures r == Split(line)
  {
    var stripped := line;
    if stripped != [] && stripped[|stripped| - 1] == '\r' {
      stripped := stripped[..|stripped| - 1];
    }
    var colon := IndexOf(stripped, ':', 0);
    if colon == |stripped| {
      return None;
    }
    r := Some((Trim(stripped[..colon]), Trim(stripped[colon + 1..])));
  }

  /** The loop of both parsers: lines in order until one carries the wanted name. */
  method FindHeader(headers: string, wanted: string) returns (value: Option<string>)
    ensures value == FirstValue(Lines(headers), wanted)
  {
    var rest := headers;
    while rest != []
      invariant FirstValue(Lines(headers), wanted) == FirstValue(Lines(rest), wanted)
      decreases |rest|
    {
      var end := IndexOf(rest, '\n', 0);
      var next := if end == |rest| then [] else rest[end + 1..];
      FirstLine(rest);
      FirstValueCons(rest[..end], Lines(next), wanted);
      var header := SplitLine(rest[..end]);
      if header.Some? && CIEquals(header.value.0, wanted) {
        return Some(header.value.1);
      }
      rest := next;
    }
    value := None;
  }

  // ---------------------------------------------------------------- printing

  /** A header as a server may write it: any case, optional spaces, CRLF. */
  datatype Header = Header(name: string, beforeColon: string, afterColon: string, value: string, trailing: string)

  predicate Contains(s: string, c: char) {
    c in s
  }

  predicate Printable(h: Header) {
    && Trimmed(h.name) && Trimmed(h.value)
    && Blank(h.beforeColon) && Blank(h.afterColon) && Blank(h.trailing)
    && !Contains(h.name + h.beforeColon, ':')
    && !Contains(h.name + h.beforeColon + h.afterColon + h.value + h.trailing, '\n')
  }

  function Line(h: Header): string {
    (h.name + h.beforeColon) + (":" + (h.afterColon + h.value + h.trailing))
  }

  function Print(headers: seq<Header>): string {
    if headers == [] then [] else (Line(headers[0]) + "\r") + ("\n" + Print(headers[1..]))
  }

  lemma {:induction false} IndexOfFirst(s: string, c: char, t: string, from: nat)
    requires from <= |s| && c !in s[from..]
    ensures IndexOf(s + [c] + t, c, from) == |s|
    decreases |s| - from
  {
    var all := s + [c] + t;
    if from < |s| {
      assert all[from] == s[from] && s[from] == s[from..][0] && s[from + 1..] == s[from..][1..];
      IndexOfFirst(s, c, t, from + 1);
    }
  }

  lemma {:induction false} TrimLeftBlank(pad: string, s: string)
    requires Blank(pad) && (s == [] || !IsSpace(s[0]))
    ensures TrimLeft(pad + s) == s
  {
    if pad == [] {
      assert pad + s == s;
    } else {
      assert pad[0] in pad && (pad + s)[1..] == pad[1..] + s;
      TrimLeftBlank(pad[1..], s);
    }
  }

  lemma {:induction false} TrimRightBlank(s: string, pad: string)
    requires Blank(pad) && (s == [] || !IsSpace(s[|s| - 1]))
    ensures TrimRight(s + pad) == s
  {
    if pad == [] {
      assert s + pad == s;
    } else {
      var k := |pad| - 1;
      assert pad[k] in pad && (s + pad)[..|s + pad| - 1] == s + pad[..k];
      TrimRightBlank(s, pad[..k]);
    }
  }

  lemma TrimPadded(before: string, s: string, after: string)
    requires Blank(before) && Blank(after) && Trimmed(s)
    ensures Trim(before + s + after) == s
  {
    assert before + s + after == before + (s + after);
    if s == [] {
      assert before + s + after == before + after;
      TrimBlank(before + after);
    } else {
      assert (s + after)[0] == s[0];
      TrimLeftBlank(before, s + after);
      TrimRightBlank(s, after);
    }
  }

  lemma SplitAtColon(left: string, right: string)
    requires ':' !in left
    ensures Split((left + (":" + right)) + "\r") == Some((Trim(left), Trim(right)))
  {
    var line := left + (":" + right);
    assert StripCr(line + "\r") == line && line == left + [':'] + right && left[0..] == left;
    IndexOfFirst(left, ':', right, 0);
    assert line[..|left|] == left && line[|left| + 1..] == right;
  }

  lemma TrimAfter(s: string, after: string)
    requires Blank(after) && Trimmed(s)
    ensures Trim(s + after) == s
  {
    TrimPadded([], s, after);
    assert [] + s + after == s + after;
  }

  /** A printed line splits into its name and value, whatever the spacing. */
  lemma SplitPrinted(h: Header)
    requires Printable(h)
    ensures Split(Line(h) + "\r") == Some((h.name, h.value))
  {
    SplitAtColon(h.name + h.beforeColon, h.afterColon + h.value + h.trailing);
    TrimAfter(h.name, h.beforeColon);
    TrimPadded(h.afterColon, h.value, h.trailing);
  }

  lemma {:induction false} LinesOfPrinted(headers: seq<Header>)
    requires headers != [] && Printable(headers[0])
    ensures Lines(Print(headers)) == [Line(headers[0]) + "\r"] + Lines(Print(headers[1..]))
  {
    var line, rest := Line(headers[0]) + "\r", Print(headers[1..]);
    assert Print(headers) == line + ['\n'] + rest;
    assert '\n' !in line && line[0..] == line;
    IndexOfFirst(line, '\n', rest, 0);
    assert Print(headers)[..|line|] == line && Print(headers)[|line| + 1..] == rest;
  }

  function FirstPrinted(headers: seq<Header>, name: string): Option<string> {
    if headers == [] then None
    else if CIEquals(headers[0].name, name) then Some(headers[0].value)
    else FirstPrinted(headers[1..], name)
  }

  /** Printing any header list and looking a name up returns the first value given for it. */
  lemma {:induction false} HeaderRoundTrip(headers: seq<Header>, name: string)
    requires forall h | h in headers :: Printable(h)
    ensures FirstValue(Lines(Print(headers)), name) == FirstPrinted(headers, name)
  {
    if headers != [] {
      assert headers[0] in headers && forall h | h in headers[1..] :: h in headers;
      HeaderRoundTrip(headers[1..], name);
      LinesOfPrinted(headers);
      SplitPrinted(headers[0]);
      var line := Line(headers[0]) + "\r";
      var rest := Lines(Print(headers[1..]));
      assert ([line] + rest)[0] == line && ([line] + rest)[1..] == rest;
    }
  }

  lemma {:induction false} AllDigitPrefix(s: string)
    requires forall c | c in s :: IsDigit(c)
    ensures DigitPrefix(s) == |s|
  {
    if s != [] {
      assert s[0] in s && forall c | c in s[1..] :: c in s;
      AllDigitPrefix(s[1..]);
    }
  }

  lemma StoullOfDecimal(n: nat)
    requires n < TWO_64
    ensures Stoull(Decimal(n)) == Some(n)
  {
    var d := Decimal(n);
    DecimalEnds(n);
    AllDigitPrefix(d);
    NatOfDecimal(n);
    assert d[0] != '-' && d[0] != '+' && TrimLeft(d) == d;
    assert d[..|d|] == d;
  }

  /** Digits are read up to the first other character, after spaces and a sign; a negative number
      wraps around, and one of 2^64 or more is an error. */
  lemma StoullExactly(spaces: string, sign: string, n: nat, rest: string)
    requires Blank(spaces) && sign in ["", "+", "-"] && (rest == "" || !IsDigit(rest[0]))
    ensures Stoull(spaces + (sign + (Decimal(n) + rest))) ==
      if n >= TWO_64 then None else if sign == "-" && n > 0 then Some(TWO_64 - n) else Some(n)
  {
    SignedDigits(sign, n, rest);
    StoullSpaces(spaces, sign + (Decimal(n) + rest));
  }

  /** Without a digit after the spaces and the sign there is no number. */
  lemma StoullNoDigits(spaces: string, sign: string, rest: string)
    requires Blank(spaces) && sign in ["", "+", "-"]
    requires rest == "" || (!IsDigit(rest[0]) && (sign != "" || (!IsSpace(rest[0]) && rest[0] !in "+-")))
    ensures Stoull(spaces + (sign + rest)) == None
  {
    if sign == "" {
      assert sign + rest == rest && TrimLeft(rest) == rest;
    } else {
      SignThen(sign, rest);
    }
    StoullSpaces(spaces, sign + rest);
  }

  lemma StoullSpaces(spaces: string, s: string)
    requires Blank(spaces) && (s == [] || !IsSpace(s[0]))
    ensures Stoull(spaces + s) == Stoull(s)
  {
    TrimLeftBlank(spaces, s);
    TrimLeftBlank("", s);
    assert "" + s == s;
  }

  lemma SignedDigits(sign: string, n: nat, rest: string)
    requires sign in ["", "+", "-"] && (rest == "" || !IsDigit(rest[0]))
    ensures !IsSpace((sign + (Decimal(n) + rest))[0])
    ensures Stoull(sign + (Decimal(n) + rest)) ==
      if n >= TWO_64 then None else if sign == "-" && n > 0 then Some(TWO_64 - n) else Some(n)
  {
    var number := Decimal(n) + rest;
    NumberThen(n, rest);
    if sign == "" {
      assert sign + number == number && TrimLeft(number) == number;
    } else {
      SignThen(sign, number);
    }
  }

  lemma SignThen(sign: string, number: string)
    requires sign in ["+", "-"]
    ensures var s := sign + number; s[0] == sign[0] && s[1..] == number && TrimLeft(s) == s
  {
  }

  lemma NumberThen(n: nat, rest: string)
    requires rest == "" || !IsDigit(rest[0])
    ensures var number := Decimal(n) + rest;
      IsDigit(number[0]) && Unsigned(number) == if n >= TWO_64 then None else Some(n)
  {
    DecimalEnds(n);
    DigitsThen(Decimal(n), rest);
    NatOfDecimal(n);
    assert (Decimal(n) + rest)[..|Decimal(n)|] == Decimal(n);
  }

  lemma {:induction false} DigitsThen(digits: string, rest: string)
    requires (forall c | c in digits :: IsDigit(c)) && (rest == "" || !IsDigit(rest[0]))
    ensures DigitPrefix(digits + rest) == |digits|
  {
    if digits == [] {
      assert digits + rest == rest;
    } else {
      assert digits[0] in digits && (digits + rest)[1..] == digits[1..] + rest;
      assert forall c | c in digits[1..] :: c in digits;
      DigitsThen(digits[1..], rest);
    }
  }

  /** The bytes a response carries, first and last, when it carries any. */
  type ByteRange = Option<(nat, nat)>

  function RangeText(range: ByteRange): string {
    match range
    case Some((first, last)) => "bytes " + Decimal(first) + "-" + Decimal(last)
    case None => "bytes *"
  }

  /** The value of a Content-Range header: `bytes first-last/total`, with `*` for a range or a
      total that is not given. */
  function RangeValue(range: ByteRange, total: Option<nat>): string {
    RangeText(range) + ("/" + (if total.Some? then Decimal(total.value) else "*"))
  }

  lemma SlashInRange(range: ByteRange, total: Option<nat>)
    ensures var v := RangeValue(range, total);
      && IndexOf(v, '/', 0) == |RangeText(range)| < |v|
      && v[|RangeText(range)| + 1..] == if total.Some? then Decimal(total.value) else "*"
  {
    var left, right := RangeText(range), if total.Some? then Decimal(total.value) else "*";
    assert RangeValue(range, total) == left + ['/'] + right;
    if range.Some? { NoSlash(Decimal(range.value.0), Decimal(range.value.1)); }
    assert left[0..] == left;
    IndexOfFirst(left, '/', right, 0);
  }

  lemma NoSlash(a: string, b: string)
    requires (forall c | c in a :: IsDigit(c)) && forall c | c in b :: IsDigit(c)
    ensures '/' !in "bytes " + a + "-" + b
  {
    assert forall c | c in "bytes " :: c != '/';
  }

  lemma DecimalIsTrimmed(n: nat)
    ensures Trim(Decimal(n)) == Decimal(n) && Decimal(n) != "*"
  {
    DecimalEnds(n);
    TrimFixpoint(Decimal(n));
    assert IsDigit(Decimal(n)[0]) && !IsDigit("*"[0]);
  }

  predicate Fits(total: Option<nat>) {
    total.Some? ==> total.value < TWO_64
  }

  lemma TotalTextOfRange(range: ByteRange, total: Option<nat>)
    ensures TotalText(RangeValue(range, total)) == if total.Some? then Some(Decimal(total.value)) else None
  {
    SlashInRange(range, total);
    if total.Some? { DecimalIsTrimmed(total.value); } else { TrimFixpoint("*"); }
  }

  /** The total of a Content-Range value is read back, given or not. */
  lemma TotalOfRange(range: ByteRange, total: Option<nat>)
    requires Fits(total)
    ensures TotalOf(RangeValue(range, total)) == total
  {
    TotalTextOfRange(range, total);
    if total.Some? { StoullOfDecimal(total.value); }
  }

  /** The size parsed from printed headers is the total of the first Content-Range, or the
      number in the first Content-Length. */
  lemma {:induction false} SizeRoundTrip(headers: seq<Header>, range: ByteRange, total: Option<nat>, length: nat)
    requires (forall h | h in headers :: Printable(h)) && Fits(total) && length < TWO_64
    ensures FirstPrinted(headers, "Content-Range") == Some(RangeValue(range, total)) ==>
      ContentRangeTotal(Print(headers)) == total
    ensures FirstPrinted(headers, "Content-Length") == Some(Decimal(length)) ==>
      ContentLength(Print(headers)) == Some(length)
    ensures FirstPrinted(headers, "Content-Range").None? ==> ContentRangeTotal(Print(headers)).None?
    ensures FirstPrinted(headers, "Content-Length").None? ==> ContentLength(Print(headers)).None?
  {
    HeaderRoundTrip(headers, "Content-Range");
    HeaderRoundTrip(headers, "Content-Length");
    TotalOfRange(range, total);
    StoullOfDecimal(length);
  }

  // ---------------------------------------------------------------- fetching

  type Byte = bv8

  /** A response; `totalBytes` is negative when the fetch layer does not report it. */
  datatype Response = Response(status: int, data: seq<Byte>, totalBytes: int, headers: string)

  /** A server conforming to sections 14.1.2 and 15.3.7 of RFC 9110, asked for bytes first-last:
      it may ignore the range, must ignore one whose end precedes its start, and may answer with
      a part of it, the bytes `enclosed`. */
  ghost predicate Conforms(content: seq<Byte>, first: nat, last: nat, enclosed: (nat, nat), r: Response) {
    || (r.status == 200 && r.data == content)
    || (r.status == 206 && first <= enclosed.0 <= enclosed.1 <= last && enclosed.1 < |content|
        && r.data == content[enclosed.0..enclosed.1 + 1])
    || (r.status == 416 && first <= last && first >= |content|)
  }

  /** The last byte asked for, in 64-bit arithmetic. */
  function LastByte(offset: nat, requested: nat): nat
    requires requested > 0
  {
    (offset + requested - 1) % TWO_64
  }

  predicate Succeeds(r: Response, offset: nat) {
    r.status == 206 || r.status == 416 || (r.status == 200 && offset == 0)
  }

  function BytesRead(r: Response, requested: nat): nat {
    if r.status == 416 then 0 else if requested <= |r.data| then requested else |r.data|
  }

  /** What a successful response teaches about the size of the resource. */
  function Learned(r: Response): Option<nat> {
    if r.totalBytes >= 0 then Some(r.totalBytes)
    else match ContentRangeTotal(r.headers)
      case Some(total) => Some(total)
      case None =>
        match ContentLength(r.headers)
        case Some(length) => Some(length)
        case None => if r.status == 200 then Some(|r.data|) else None
  }

  /** What a HEAD response teaches, when it is one. */
  function HeadLength(head: Option<Response>): Option<nat> {
    if head.None? || !(200 <= head.value.status < 400) then None
    else if head.value.totalBytes >= 0 then Some(head.value.totalBytes)
    else ContentLength(head.value.headers)
  }

  class WasmHttpRandomAccess {
    var contentLength: Option<nat>

    constructor ()
      ensures contentLength == None
    {
      contentLength := None;
    }

    /** One range request. `response` is None when the fetch layer fails. */
    method PerformFetchLocked(offset: nat, requested: nat, dst: array?<Byte>, response: Option<Response>)
      returns (success: bool, outRead: nat)
      requires dst != null ==> requested <= dst.Length
      modifies this, dst
      ensures requested == 0 ==> success && outRead == 0 && contentLength == old(contentLength)
      ensures requested > 0 ==> success == (response.Some? && Succeeds(response.value, offset))
      ensures success && requested > 0 ==>
        var r := response.value;
        && outRead == BytesRead(r, requested)
        && (dst != null && r.status != 416 ==> dst[..outRead] == r.data[..outRead])
        && contentLength == (if old(contentLength).Some? then old(contentLength) else Learned(r))
      ensures !success ==> outRead == 0 && contentLength == old(contentLength)
      ensures dst != null ==> forall i :: outRead <= i < dst.Length ==> dst[i] == old(dst[i])
      ensures requested > 0 && response.Some? && response.value.status !in [200, 206, 416] ==>
        !success && outRead == 0 && contentLength == old(contentLength) && (dst != null ==> dst[..] == old(dst[..]))
    {
      outRead, success := 0, false;
      if requested == 0 {
        return true, 0;
      }
      if response.None? {
        return false, 0;
      }
      var r := response.value;
      if r.status == 206 || r.status == 200 {
        var available := |r.data|;
        if r.status == 200 && offset > 0 {
          success := false;
        } else {
          var toCopy := if requested <= available then requested else available;
          if dst != null && toCopy > 0 {
            for k := 0 to toCopy
              invariant dst[..k] == r.data[..k]
              invariant forall i :: k <= i < dst.Length ==> dst[i] == old(dst[i])
              invariant contentLength == old(contentLength)
            {
              dst[k] := r.data[k];
              assert r.data[..k + 1] == r.data[..k] + [r.data[k]];
            }
          }
          outRead := toCopy;
          success := true;
        }
      } else if r.status == 416 {
        success := true;
      }
      if success && contentLength.None? {
        contentLength := Learned(r);
      }
    }

    /** The cached size stays once known; otherwise HEAD is tried, then a one-byte range. */
    method EnsureContentLengthLocked(head: Option<Response>, range: Option<Response>) returns (known: bool)
      modifies this
      ensures known ==> contentLength.Some?
      ensures old(contentLength).Some? ==> known && contentLength == old(contentLength)
      ensures old(contentLength).None? && HeadLength(head).Some? ==> known && contentLength == HeadLength(head)
      ensures old(contentLength).None? && HeadLength(head).None? ==>
        known == (range.Some? && Succeeds(range.value, 0) && Learned(range.value).Some?)
      ensures old(contentLength).None? && HeadLength(head).None? && known ==> contentLength == Learned(range.value)
    {
      if contentLength.Some? {
        return true;
      }
      if HeadLength(head).Some? {
        contentLength := HeadLength(head);
        return true;
      }
      var ok, _ := PerformFetchLocked(0, 1, null, range);
      known := ok && contentLength.Some?;
    }
  }

  function Clip(size: nat, offset: nat, requested: nat): nat {
    if offset >= size then 0 else if size - offset < requested then size - offset else requested
  }

  /** Where a part answers the whole request: it starts at the offset and ends with the request
      or the resource. */
  predicate Complete(content: seq<Byte>, offset: nat, requested: nat, enclosed: (nat, nat)) {
    enclosed.0 == offset && (enclosed.1 + 1 == offset + requested || enclosed.1 + 1 == |content|)
  }

  /** A successful fetch from a conforming server delivers the bytes at the offset, as many as
      were asked for and exist, if the answer is not partial; a partial answer it delivers whole,
      which is all that was asked for exactly when the part is complete. A fetch fails exactly
      when the server ignores the range of a request that does not start at 0, as it must when the
      range overflows. */
  lemma FetchDeliversRange(content: seq<Byte>, offset: nat, requested: nat, enclosed: (nat, nat), r: Response)
    requires requested > 0 && offset < TWO_64 && requested < TWO_64
    requires Conforms(content, offset, LastByte(offset, requested), enclosed, r)
    ensures var success, outRead := Succeeds(r, offset), BytesRead(r, requested);
      && (success <==> !(r.status == 200 && offset > 0))
      && (success && r.status != 206 ==> outRead == Clip(|content|, offset, requested))
      && (success && r.status == 200 ==> r.data[..outRead] == content[offset..offset + outRead])
      && (r.status == 206 ==>
            && outRead == enclosed.1 + 1 - enclosed.0
            && r.data[..outRead] == content[enclosed.0..enclosed.0 + outRead]
            && (outRead == Clip(|content|, offset, requested) <==> Complete(content, offset, requested, enclosed)))
      && (offset + requested > TWO_64 ==> !success)
  {
    var last := LastByte(offset, requested);
    if offset + requested > TWO_64 {
      assert last == offset + requested - 1 - TWO_64;
    } else {
      assert last == offset + requested - 1;
    }
    if r.status == 206 { assert r.data[..|r.data|] == r.data; }
  }

  // ---------------------------------------------------------------- the learned size

  /** What a server says about a response in its headers: its Content-Length (section 8.6 of
      RFC 9110), if sent, and its Content-Range (section 14.4), if sent. */
  datatype Sent = Sent(hasLength: bool, hasRange: bool, range: ByteRange, total: Option<nat>)

  ghost predicate Says(headers: seq<Header>, sent: Sent, bodyLength: nat) {
    && (forall h | h in headers :: Printable(h))
    && FirstPrinted(headers, "Content-Length") == (if sent.hasLength then Some(Decimal(bodyLength)) else None)
    && FirstPrinted(headers, "Content-Range")
         == (if sent.hasRange then Some(RangeValue(sent.range, sent.total)) else None)
  }

  /** A total that is given is the size of the resource. */
  ghost predicate Truthful(sent: Sent, size: nat) {
    sent.hasRange && sent.total.Some? ==> sent.total == Some(size)
  }

  /** The fetch layer reports no total, or the length of the body it received. */
  predicate ReportsBody(r: Response) {
    r.totalBytes < 0 || r.totalBytes == |r.data|
  }

  /** A response, the headers it was sent with, and the request it answers. */
  ghost predicate Answers(content: seq<Byte>, offset: nat, requested: nat, enclosed: (nat, nat), r: Response,
                          headers: seq<Header>, sent: Sent)
  {
    && requested > 0 && offset < TWO_64 && requested < TWO_64 && |content| < TWO_64 && |r.data| < TWO_64
    && Conforms(content, offset, LastByte(offset, requested), enclosed, r) && Succeeds(r, offset) && ReportsBody(r)
    && r.headers == Print(headers) && Says(headers, sent, |r.data|) && Truthful(sent, |content|)
  }

  /** The size is taken from a Content-Range that gives the total. */
  predicate TakesTotal(r: Response, sent: Sent) {
    r.totalBytes < 0 && sent.hasRange && sent.total.Some?
  }

  /** Otherwise it is the length of the body, if any length is known. */
  predicate TakesBody(r: Response, sent: Sent) {
    !TakesTotal(r, sent) && (r.totalBytes >= 0 || sent.hasLength || r.status == 200)
  }

  /** What is learned from a response whose headers say this. */
  lemma LearnedFromHeaders(r: Response, headers: seq<Header>, sent: Sent)
    requires ReportsBody(r) && r.headers == Print(headers) && Says(headers, sent, |r.data|) && |r.data| < TWO_64
    requires sent.hasRange ==> Fits(sent.total)
    ensures Learned(r) ==
      if TakesTotal(r, sent) then sent.total else if TakesBody(r, sent) then Some(|r.data|) else None
  {
    SizeRoundTrip(headers, sent.range, if sent.hasRange then sent.total else None, |r.data|);
  }

  /** What is learned from a conforming response. */
  lemma LearnedFromResponse(content: seq<Byte>, offset: nat, requested: nat, enclosed: (nat, nat), r: Response,
                            headers: seq<Header>, sent: Sent)
    requires Answers(content, offset, requested, enclosed, r, headers, sent)
    ensures Learned(r) ==
      if TakesTotal(r, sent) then Some(|content|) else if TakesBody(r, sent) then Some(|r.data|) else None
  {
    LearnedFromHeaders(r, headers, sent);
  }

  /** The body is as long as the resource: it is the resource, or an error page of that length. */
  predicate WholeLength(content: seq<Byte>, enclosed: (nat, nat), r: Response) {
    || r.status == 200
    || (r.status == 206 && enclosed.0 == 0 && enclosed.1 + 1 == |content|)
    || (r.status == 416 && |r.data| == |content|)
  }

  lemma WholeLengthExactly(content: seq<Byte>, first: nat, last: nat, enclosed: (nat, nat), r: Response)
    requires Conforms(content, first, last, enclosed, r)
    ensures |r.data| == |content| <==> WholeLength(content, enclosed, r)
  {
  }

  /** The size learned from a successful response of a conforming server is right if and only if
      the response states the total, or the length of its body is taken and the body is the
      whole resource: it came with status 200, or the part sent reaches from the first byte to
      the last, or the error page of a 416 happens to be as long as the resource. */
  lemma LearnedSizeExactly(content: seq<Byte>, offset: nat, requested: nat, enclosed: (nat, nat), r: Response,
                           headers: seq<Header>, sent: Sent)
    requires Answers(content, offset, requested, enclosed, r, headers, sent)
    ensures Learned(r) == Some(|content|) <==>
      (TakesTotal(r, sent) || (TakesBody(r, sent) && WholeLength(content, enclosed, r)))
  {
    LearnedFromResponse(content, offset, requested, enclosed, r, headers, sent);
    WholeLengthExactly(content, offset, LastByte(offset, requested), enclosed, r);
  }

  /** A response with another status never succeeds; a HEAD response teaches nothing outside 200
      to 399. */
  lemma OtherStatus(r: Response, offset: nat)
    ensures r.status !in [200, 206, 416] ==> !Succeeds(r, offset)
    ensures !(200 <= r.status < 400) ==> HeadLength(Some(r)).None?
    ensures HeadLength(None).None?
  {
  }

  /** What HEAD teaches is right if and only if the fetch layer reports that total, or reports
      none and the server sent a Content-Length of that many bytes, as one conforming to section
      8.6 of RFC 9110 does with status 200. */
  lemma HeadSizeExactly(size: nat, head: Response, headers: seq<Header>, sent: Sent, length: nat)
    requires 200 <= head.status < 400 && head.headers == Print(headers) && Says(headers, sent, length)
    requires length < TWO_64 && (head.status == 200 && sent.hasLength ==> length == size)
    ensures HeadLength(Some(head)) == Some(size) <==>
      (if head.totalBytes >= 0 then head.totalBytes == size
       else sent.hasLength && (head.status == 200 || length == size))
  {
    HeaderRoundTrip(headers, "Content-Length");
    StoullOfDecimal(length);
  }

  /** A request past the end: the length of the error page becomes the size of the file. */
  lemma ErrorPageWitness(content: seq<Byte>, page: seq<Byte>)
    requires |content| < TWO_64 - 1 && |page| < TWO_64 && |page| != |content|
    ensures var r, sent := Response(416, page, |page|, ""), Sent(false, false, None, None);
      && Answers(content, |content|, 1, (0, 0), r, [], sent) && Learned(r) == Some(|page|)
  {
    var r, sent := Response(416, page, |page|, ""), Sent(false, false, None, None);
    LearnedFromResponse(content, |content|, 1, (0, 0), r, [], sent);
  }

  /** The headers of a one-byte answer that leaves the total open. */
  function OpenTotal(): seq<Header> {
    [Header("Content-Range", "", " ", "bytes 0-0/*", ""), Header("Content-Length", "", " ", "1", "")]
  }

  lemma OpenTotalSays()
    ensures Says(OpenTotal(), Sent(true, true, Some((0, 0)), None), 1)
  {
    assert Decimal(0) == "0" && Decimal(1) == "1";
    assert RangeText(Some((0, 0))) == "bytes 0-0";
    assert RangeValue(Some((0, 0)), None) == "bytes 0-0" + "/*" == "bytes 0-0/*";
    DifferentNames();
    var headers := OpenTotal();
    assert headers[1..] == [headers[1]];
    assert FirstPrinted(headers, "Content-Length") == FirstPrinted([headers[1]], "Content-Length") == Some("1");
    OpenTotalPrintable();
  }

  lemma DifferentNames()
    ensures !CIEquals("Content-Range", "Content-Length")
  {
    assert |Lower("Content-Range")| == 13 && |Lower("Content-Length")| == 14;
  }

  lemma OpenTotalPrintable()
    ensures forall h | h in OpenTotal() :: Printable(h)
  {
    var headers := OpenTotal();
    assert Printable(headers[0]);
    assert Printable(headers[1]);
  }

  /** A one-byte probe whose answer leaves the total open: the length of that one byte becomes
      the size of the file. */
  lemma OpenTotalWitness(content: seq<Byte>)
    requires 1 < |content| < TWO_64
    ensures var r := Response(206, content[..1], -1, Print(OpenTotal()));
      && Answers(content, 0, 1, (0, 0), r, OpenTotal(), Sent(true, true, Some((0, 0)), None))
      && Learned(r) == Some(1)
  {
    var r := Response(206, content[..1], -1, Print(OpenTotal()));
    OpenTotalSays();
    LearnedFromResponse(content, 0, 1, (0, 0), r, OpenTotal(), Sent(true, true, Some((0, 0)), None));
  }
}
