/** The SRV record value the adapter writes, "1 1 <port> <ip>.": the
    priority, weight, port and target fields of the SRV RDATA layout of
    RFC 2782 ("The format of the SRV RR"), written in zone-file text form with
    Go's %d for the integers. A parser is the partner: every formatted value
    parses back to its fields, so two services with different ports or IPs
    never produce the same value. */
module Srv {
  import opened Wrappers
  import opened Seqs

  /** The priority and weight the adapter always writes. */
  const Priority: int := 1
  const Weight: int := 1

  /** The four fields of an SRV record. */
  datatype SrvData = SrvData(priority: int, weight: int, port: int, target: string)

  predicate IsDigit(c: char)
  {
    '0' <= c <= '9'
  }

  predicate AllDigits(s: string)
  {
    forall i :: 0 <= i < |s| ==> IsDigit(s[i])
  }

  function DigitChar(d: nat): (c: char)
    requires d < 10
    ensures IsDigit(c) && c as int - '0' as int == d
  {
    ('0' as int + d) as char
  }

  /** Decimal digits of `n`, most significant first, without leading zeros. */
  function FormatNat(n: nat): (s: string)
    ensures |s| >= 1 && AllDigits(s)
  {
    if n < 10 then [DigitChar(n)] else FormatNat(n / 10) + [DigitChar(n % 10)]
  }

  /** Go's %d for a signed integer: a minus sign, then the digits of the
      magnitude. */
  function FormatInt(n: int): (s: string)
    ensures |s| >= 1 && ' ' !in s
    ensures s[0] == '-' <==> n < 0
  {
    if n < 0 then "-" + FormatNat(-n) else FormatNat(n)
  }

  /** The value of a string of decimal digits. */
  function DigitsValue(s: string): nat
    requires AllDigits(s)
  {
    if |s| == 0 then 0
    else 10 * DigitsValue(s[..|s| - 1]) + (s[|s| - 1] as int - '0' as int)
  }

  /** An optionally signed, non-empty decimal integer. */
  function ParseInt(s: string): Option<int>
  {
    if |s| > 1 && s[0] == '-' && AllDigits(s[1..]) then Some(-(DigitsValue(s[1..]) as int))
    else if |s| > 0 && AllDigits(s) then Some(DigitsValue(s))
    else None
  }

  lemma {:induction false} DigitsValueFormatNat(n: nat)
    ensures DigitsValue(FormatNat(n)) == n
  {
    if n >= 10 {
      var s := FormatNat(n);
      assert s[..|s| - 1] == FormatNat(n / 10);
      DigitsValueFormatNat(n / 10);
    }
  }

  /** Parsing inverts Go's %d on every integer. */
  lemma ParseFormatInt(n: int)
    ensures ParseInt(FormatInt(n)) == Some(n)
  {
    var s := FormatInt(n);
    if n < 0 {
      assert s[1..] == FormatNat(-n);
      DigitsValueFormatNat(-n);
    } else {
      assert IsDigit(s[0]);
      DigitsValueFormatNat(n);
    }
  }

  /** The text of `s` before its first space, and the text after it. */
  function Token(s: string): Option<(string, string)>
  {
    match IndexOf(s, ' ')
    case None => None
    case Some(i) => Some((s[..i], s[i + 1..]))
  }

  lemma TokenAppend(t: string, rest: string)
    requires ' ' !in t
    ensures Token(t + " " + rest) == Some((t, rest))
  {
    var s := t + " " + rest;
    IndexOfAfterPiece(t, ' ', rest);
    assert s[..|t|] == t;
    assert s[|t| + 1..] == rest;
  }

  /** The presentation form of an SRV record: priority, weight and port in
      decimal, then the target written as an absolute name (trailing dot). */
  function FormatSrv(d: SrvData): string
  {
    FormatInt(d.priority) + " " + FormatInt(d.weight) + " " + FormatInt(d.port) + " " + d.target + "."
  }

  /** The first three space-terminated tokens of `s` and what follows them. */
  function Tokens3(s: string): Option<(string, string, string, string)>
  {
    match Token(s)
    case None => None
    case Some((t1, r1)) =>
      match Token(r1)
      case None => None
      case Some((t2, r2)) =>
        match Token(r2)
        case None => None
        case Some((t3, r3)) => Some((t1, t2, t3, r3))
  }

  /** The fields of a record whose three integers and target-with-dot have
      been cut apart already. */
  function ParseFields(t1: string, t2: string, t3: string, rest: string): Option<SrvData>
  {
    match (ParseInt(t1), ParseInt(t2), ParseInt(t3))
    case (Some(p), Some(w), Some(port)) =>
      if |rest| > 0 && rest[|rest| - 1] == '.' then Some(SrvData(p, w, port, rest[..|rest| - 1])) else None
    case _ => None
  }

  /** Reads the presentation form back: three space-terminated integers and a
      target that ends in a dot, which is dropped. */
  function ParseSrv(s: string): Option<SrvData>
  {
    match Tokens3(s)
    case None => None
    case Some((t1, t2, t3, rest)) => ParseFields(t1, t2, t3, rest)
  }

  lemma Tokens3Append(t1: string, t2: string, t3: string, rest: string)
    requires ' ' !in t1 && ' ' !in t2 && ' ' !in t3
    ensures Tokens3(t1 + " " + t2 + " " + t3 + " " + rest) == Some((t1, t2, t3, rest))
  {
    var r2 := t3 + " " + rest;
    var r1 := t2 + " " + r2;
    assert t1 + " " + t2 + " " + t3 + " " + rest == t1 + " " + r1;
    TokenAppend(t1, r1);
    assert Token(t1 + " " + r1) == Some((t1, r1));
    TokenAppend(t2, r2);
    assert Token(r1) == Some((t2, r2));
    TokenAppend(t3, rest);
    assert Token(r2) == Some((t3, rest));
  }

  lemma ParseFieldsFormatted(d: SrvData)
    ensures ParseFields(FormatInt(d.priority), FormatInt(d.weight), FormatInt(d.port), d.target + ".") == Some(d)
  {
    ParseFormatInt(d.priority);
    ParseFormatInt(d.weight);
    ParseFormatInt(d.port);
    var rest := d.target + ".";
    assert rest[..|rest| - 1] == d.target;
  }

  /** Every formatted record parses back to the fields it was made from. */
  lemma ParseFormatSrv(d: SrvData)
    ensures ParseSrv(FormatSrv(d)) == Some(d)
  {
    var t1, t2, t3 := FormatInt(d.priority), FormatInt(d.weight), FormatInt(d.port);
    Tokens3Append(t1, t2, t3, d.target + ".");
    assert FormatSrv(d) == t1 + " " + t2 + " " + t3 + " " + (d.target + ".");
    ParseFieldsFormatted(d);
  }

  /** The value the adapter registers for a service at `port` on `ip`. */
  function SrvValue(port: int, ip: string): (v: string)
    ensures "1 1 " <= v
    ensures |v| > 4 && v[|v| - 1] == '.'
  {
    FormatSrv(SrvData(Priority, Weight, port, ip))
  }

  /** The registered value reads back as priority 1, weight 1, the port, and
      the IP as target. */
  lemma ParseSrvValue(port: int, ip: string)
    ensures ParseSrv(SrvValue(port, ip)) == Some(SrvData(Priority, Weight, port, ip))
  {
    ParseFormatSrv(SrvData(Priority, Weight, port, ip));
  }

  /** Different endpoints never share a record value, so comparing values is
      comparing endpoints. */
  lemma SrvValueInjective(port1: int, ip1: string, port2: int, ip2: string)
    ensures SrvValue(port1, ip1) == SrvValue(port2, ip2) <==> port1 == port2 && ip1 == ip2
  {
    ParseSrvValue(port1, ip1);
    ParseSrvValue(port2, ip2);
  }
}
