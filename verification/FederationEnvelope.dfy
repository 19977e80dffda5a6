/** The escaped seven-field join that one server signs and the other re-derives. */
module FederationEnvelope {

  const ESCAPED_PERCENT := "%25"
  const ESCAPED_COLON := "%3A"

  /** Every occurrence of one character replaced by a string. */
  function Replace(s: string, c: char, sub: string): string {
    if s == "" then "" else (if s[0] == c then sub else [s[0]]) + Replace(s[1..], c, sub)
  }

  /** The source's two passes: percent signs first, then colons. */
  function EscapeTwoPass(s: string): string {
    Replace(Replace(s, '%', ESCAPED_PERCENT), ':', ESCAPED_COLON)
  }

  /** The same escape as one map over the characters. */
  function Escape(s: string): string {
    if s == "" then ""
    else (if s[0] == '%' then "%25" else if s[0] == ':' then "%3A" else [s[0]]) + Escape(s[1..])
  }

  lemma {:induction false} ReplaceConcat(s: string, t: string, c: char, sub: string)
    ensures Replace(s + t, c, sub) == Replace(s, c, sub) + Replace(t, c, sub)
  {
    if s == "" {
      assert s + t == t;
    } else {
      assert (s + t)[1..] == s[1..] + t;
      ReplaceConcat(s[1..], t, c, sub);
    }
  }

  lemma PercentHasNoColon()
    ensures Replace(ESCAPED_PERCENT, ':', ESCAPED_COLON) == ESCAPED_PERCENT
  {
    var p := ESCAPED_PERCENT;
    assert p[1..] == "25" && p[1..][1..] == "5" && p[1..][1..][1..] == "";
    assert Replace("5", ':', ESCAPED_COLON) == "5";
    assert Replace("25", ':', ESCAPED_COLON) == "25";
  }

  /** The second pass does not touch what the first inserted. */
  lemma {:induction false} TwoPassesAreOneMap(s: string)
    ensures EscapeTwoPass(s) == Escape(s)
  {
    if s != "" {
      TwoPassesAreOneMap(s[1..]);
      var head := if s[0] == '%' then ESCAPED_PERCENT else [s[0]];
      ReplaceConcat(head, Replace(s[1..], '%', ESCAPED_PERCENT), ':', ESCAPED_COLON);
      PercentHasNoColon();
      assert [s[0]][1..] == "";
    }
  }

  /** Undoes the escape: `%2x` and `%3x` stand for a percent sign and a colon. */
  function Unescape(s: string): string {
    if s == "" then ""
    else if s[0] == '%' && |s| >= 3 then [if s[1] == '2' then '%' else ':'] + Unescape(s[3..])
    else [s[0]] + Unescape(s[1..])
  }

  lemma {:induction false} UnescapeEscape(s: string)
    ensures Unescape(Escape(s)) == s
  {
    if s != "" {
      UnescapeEscape(s[1..]);
      var e, rest := Escape(s), Escape(s[1..]);
      if s[0] == '%' {
        assert e[0] == '%' && e[1] == '2' && e[3..] == rest;
      } else if s[0] == ':' {
        assert e[0] == '%' && e[1] == '3' && e[3..] == rest;
      } else {
        assert e[1..] == rest;
      }
    }
  }

  lemma {:induction false} EscapeHasNoColon(s: string)
    ensures ':' !in Escape(s)
  {
    if s != "" {
      EscapeHasNoColon(s[1..]);
    }
  }

  /** ":".join over the escaped fields. */
  function Join(fields: seq<string>): string {
    if fields == [] then ""
    else if |fields| == 1 then EscapeTwoPass(fields[0])
    else EscapeTwoPass(fields[0]) + ":" + Join(fields[1..])
  }

  /** The position of the first colon, or the length of the string. */
  function FirstColon(s: string): nat {
    if s == "" || s[0] == ':' then 0 else 1 + FirstColon(s[1..])
  }

  lemma {:induction false} FirstColonAfter(a: string, x: string)
    requires ':' !in a
    ensures FirstColon(a) == |a| && FirstColon(a + ":" + x) == |a|
  {
    if a != "" {
      FirstColonAfter(a[1..], x);
      assert (a + ":" + x)[1..] == a[1..] + ":" + x;
    }
  }

  /** Equal strings with a colon have equal parts before and after the first one. */
  lemma SplitAtColon(a: string, x: string, b: string, y: string)
    requires ':' !in a && ':' !in b
    requires a + ":" + x == b + ":" + y
    ensures a == b && x == y
  {
    FirstColonAfter(a, x);
    FirstColonAfter(b, y);
    assert a == (a + ":" + x)[..|a|] && b == (b + ":" + y)[..|b|];
    assert x == (a + ":" + x)[|a| + 1..] && y == (b + ":" + y)[|b| + 1..];
  }

  lemma EscapeIsInjective(s: string, t: string)
    requires EscapeTwoPass(s) == EscapeTwoPass(t)
    ensures s == t
  {
    TwoPassesAreOneMap(s);
    TwoPassesAreOneMap(t);
    UnescapeEscape(s);
    UnescapeEscape(t);
  }

  lemma EscapedHasNoColon(s: string)
    ensures ':' !in EscapeTwoPass(s)
  {
    TwoPassesAreOneMap(s);
    EscapeHasNoColon(s);
  }

  /** The first colon of a join ends its first field; without one there is one field. */
  lemma JoinStartsWithField(fields: seq<string>)
    requires fields != []
    ensures ':' !in EscapeTwoPass(fields[0])
    ensures FirstColon(Join(fields)) == |EscapeTwoPass(fields[0])|
    ensures |fields| == 1 <==> FirstColon(Join(fields)) == |Join(fields)|
  {
    EscapedHasNoColon(fields[0]);
    FirstColonAfter(EscapeTwoPass(fields[0]), Join(fields[1..]));
  }

  /** The fields of a joined string: cut at its colons, each part unescaped. */
  function Split(s: string): seq<string>
    decreases |s|
  {
    var n := FirstColon(s);
    if n >= |s| then [Unescape(s)] else [Unescape(s[..n])] + Split(s[n + 1..])
  }

  lemma {:induction false} SplitJoin(fields: seq<string>)
    requires fields != []
    ensures Split(Join(fields)) == fields
    decreases |fields|
  {
    var first := EscapeTwoPass(fields[0]);
    JoinStartsWithField(fields);
    TwoPassesAreOneMap(fields[0]);
    UnescapeEscape(fields[0]);
    if |fields| > 1 {
      SplitJoin(fields[1..]);
      assert Join(fields)[..|first|] == first && Join(fields)[|first| + 1..] == Join(fields[1..]);
    }
  }

  /** The join names its fields, for any strings and any number of fields but none. */
  lemma {:induction false} JoinIsInjective(fields: seq<string>, others: seq<string>)
    requires fields != [] && others != []
    requires Join(fields) == Join(others)
    ensures fields == others
    decreases |fields|
  {
    JoinStartsWithField(fields);
    JoinStartsWithField(others);
    if |fields| > 1 {
      SplitAtColon(EscapeTwoPass(fields[0]), Join(fields[1..]), EscapeTwoPass(others[0]), Join(others[1..]));
      JoinIsInjective(fields[1..], others[1..]);
    }
    EscapeIsInjective(fields[0], others[0]);
    assert fields == [fields[0]] + fields[1..] && others == [others[0]] + others[1..];
  }

  // ------------------------------------------------------------------------
  // The seven fields
  // ------------------------------------------------------------------------

  function Digit(d: nat): char
    requires d < 10
  {
    ('0' as int + d) as char
  }

  function Digits(n: nat): (s: string)
    ensures s != "" && '0' <= s[0] <= '9'
    ensures s[0] == '0' ==> n == 0 && s == "0"
  {
    if n < 10 then [Digit(n)] else Digits(n / 10) + [Digit(n % 10)]
  }

  /** str() of an integer. */
  function Decimal(n: int): (s: string)
    ensures s != "" && (s[0] == '-' <==> n < 0)
  {
    if n < 0 then "-" + Digits(-n) else Digits(n)
  }

  function Value(s: string): int {
    if s == "" then 0 else 10 * Value(s[..|s| - 1]) + (s[|s| - 1] as int - '0' as int)
  }

  /** int() of what str() wrote. */
  function ReadDecimal(s: string): int {
    if s != "" && s[0] == '-' then -Value(s[1..]) else Value(s)
  }

  lemma {:induction false} DigitsValue(n: nat)
    ensures Value(Digits(n)) == n
  {
    if n >= 10 {
      DigitsValue(n / 10);
      assert Digits(n)[..|Digits(n)| - 1] == Digits(n / 10);
    } else {
      assert Digits(n)[..0] == "";
    }
  }

  lemma DecimalRoundTrip(n: int)
    ensures ReadDecimal(Decimal(n)) == n
  {
    if n < 0 {
      DigitsValue(-n);
      assert Decimal(n)[0] == '-' && Decimal(n)[1..] == Digits(-n);
    } else {
      DigitsValue(n);
    }
  }

  datatype Envelope = Envelope(
    messageId: string, sender: string, recipient: string, origin: string, dest: string, timestamp: int, payloadHash: string)

  function Fields(e: Envelope): seq<string> {
    [e.messageId, e.sender, e.recipient, e.origin, e.dest, Decimal(e.timestamp), e.payloadHash]
  }

  function CanonicalEnvelope(e: Envelope): string {
    Join(Fields(e))
  }

  /** Read back, the signed string is message id, sender, recipient, origin, destination, time and
      payload hash, in that order. */
  lemma CanonicalEnvelopeReads(e: Envelope)
    ensures var fields := Split(CanonicalEnvelope(e));
            && |fields| == 7 && fields[0] == e.messageId && fields[1] == e.sender && fields[2] == e.recipient
            && fields[3] == e.origin && fields[4] == e.dest && ReadDecimal(fields[5]) == e.timestamp
            && fields[6] == e.payloadHash
  {
    SplitJoin(Fields(e));
    DecimalRoundTrip(e.timestamp);
  }

  /** What is signed names every field of the envelope: two envelopes have one signing
      representation only if they are the same. */
  lemma CanonicalEnvelopeIsInjective(e: Envelope, f: Envelope)
    requires CanonicalEnvelope(e) == CanonicalEnvelope(f)
    ensures e == f
  {
    JoinIsInjective(Fields(e), Fields(f));
    assert forall i | 0 <= i < 7 :: Fields(e)[i] == Fields(f)[i];
    assert Fields(e)[0] == Fields(f)[0] && Fields(e)[1] == Fields(f)[1] && Fields(e)[2] == Fields(f)[2];
    assert Fields(e)[3] == Fields(f)[3] && Fields(e)[4] == Fields(f)[4] && Fields(e)[6] == Fields(f)[6];
    assert Fields(e)[5] == Fields(f)[5];
    DecimalRoundTrip(e.timestamp);
    DecimalRoundTrip(f.timestamp);
  }
}
