/** The comment that carries a rule's metadata through iptables: printed with colons, parsed back. */
module RuleComment {
  import opened Common

  const PREFIX: string := "whitequbit-agent"

  const U64_MAX: nat := 0xFFFF_FFFF_FFFF_FFFF

  const U8_MAX: nat := 255

  datatype RuleType = Block | RateLimit | Allow

  datatype RuleMetadata = RuleMetadata(ruleId: string, createdAt: nat, expiresAt: nat, ruleType: RuleType)
  {
    /** Both times are 64-bit. */
    predicate Fits() { createdAt <= U64_MAX && expiresAt <= U64_MAX }
  }

  function Tag(t: RuleType): nat {
    match t case Block => 0 case RateLimit => 1 case Allow => 2
  }

  function OfTag(n: nat): Option<RuleType> {
    if n == 0 then Some(Block) else if n == 1 then Some(RateLimit) else if n == 2 then Some(Allow) else None
  }

  /** The number of each type, and no other number means a type. */
  lemma TagNumbers(n: nat)
    ensures Tag(Block) == 0 && Tag(RateLimit) == 1 && Tag(Allow) == 2
    ensures OfTag(n) == if n == 0 then Some(Block) else if n == 1 then Some(RateLimit)
                        else if n == 2 then Some(Allow) else None
  {
  }

  // ---- Decimal numbers ----

  function Digit(d: nat): char
    requires d < 10
  {
    '0' + d as char
  }

  predicate IsDigit(c: char) { '0' <= c <= '9' }

  function Print(n: nat): (s: string)
    ensures s != [] && forall c | c in s :: IsDigit(c)
  {
    if n < 10 then [Digit(n)] else Print(n / 10) + [Digit(n % 10)]
  }

  function DigitsValue(s: string): Option<nat> {
    if s == [] then Some(0)
    else
      var last := s[|s| - 1];
      var front := DigitsValue(s[..|s| - 1]);
      if front.None? || !IsDigit(last) then None else Some(front.value * 10 + (last as nat - '0' as nat))
  }

  /** The library parse of an unsigned number: an optional plus sign, at least one digit, no overflow. */
  function ParseUnsigned(s: string, max: nat): Option<nat> {
    var digits := if |s| > 1 && s[0] == '+' then s[1..] else s;
    if digits == [] then None
    else
      var v := DigitsValue(digits);
      if v.Some? && v.value <= max then v else None
  }

  lemma {:induction false} PrintedValue(n: nat)
    ensures DigitsValue(Print(n)) == Some(n)
  {
    if n < 10 {
      assert Print(n)[..0] == [] && DigitsValue(Print(n)[..0]) == Some(0);
    } else {
      PrintedValue(n / 10);
      assert Print(n)[..|Print(n)| - 1] == Print(n / 10);
      assert Digit(n % 10) as nat - '0' as nat == n % 10;
    }
  }

  lemma {:induction false} PrintedParses(n: nat, max: nat)
    requires n <= max
    ensures ParseUnsigned(Print(n), max) == Some(n)
  {
    PrintedValue(n);
    assert Print(n)[0] in Print(n);
  }

  /** What else parses and what does not: a plus sign is accepted before digits and nowhere else, and overflow, the
      empty text and any other character are errors. */
  lemma {:induction false} OtherTexts(n: nat, max: nat, s: string)
    ensures ParseUnsigned("+" + Print(n), max) == if n <= max then Some(n) else None
    ensures ParseUnsigned(Print(n), max) == if n <= max then Some(n) else None
    ensures ParseUnsigned("", max) == ParseUnsigned("+", max) == None
    ensures (exists i :: 0 <= i < |s| && !IsDigit(s[i]) && (i > 0 || s[i] != '+')) ==> ParseUnsigned(s, max) == None
  {
    PrintedValue(n);
    assert ("+" + Print(n))[1..] == Print(n);
    assert Print(n)[0] in Print(n);
    assert "+"[..0] == "" && DigitsValue("+") == None;
    if i :| 0 <= i < |s| && !IsDigit(s[i]) && (i > 0 || s[i] != '+') {
      var digits := if |s| > 1 && s[0] == '+' then s[1..] else s;
      assert digits[if |digits| == |s| then i else i - 1] == s[i];
      NotDigits(digits, if |digits| == |s| then i else i - 1);
    }
  }

  lemma {:induction false} NotDigits(s: string, i: nat)
    requires i < |s| && !IsDigit(s[i])
    ensures DigitsValue(s) == None
  {
    if i < |s| - 1 {
      NotDigits(s[..|s| - 1], i);
    }
  }

  // ---- Colon splitting ----

  function Split(s: string): (parts: seq<string>)
    ensures |parts| >= 1
  {
    if s == [] then [[]]
    else
      var rest := Split(s[1..]);
      if s[0] == ':' then [[]] + rest else [[s[0]] + rest[0]] + rest[1..]
  }

  lemma {:induction false} PartsHaveNoColon(s: string)
    ensures forall i | 0 <= i < |Split(s)| :: ':' !in Split(s)[i]
  {
    if s != [] {
      PartsHaveNoColon(s[1..]);
      var rest := Split(s[1..]);
      forall i | 0 <= i < |Split(s)| ensures ':' !in Split(s)[i] {
        if s[0] == ':' { assert i > 0 ==> Split(s)[i] == rest[i - 1]; }
        else { assert Split(s)[i] == if i == 0 then [s[0]] + rest[0] else rest[i]; }
      }
    }
  }

  lemma {:induction false} SplitAtColon(head: string, tail: string)
    requires ':' !in head
    ensures Split(head + ":" + tail) == [head] + Split(tail)
  {
    var s := head + ":" + tail;
    if head == [] {
      assert s[1..] == tail;
    } else {
      assert s[1..] == head[1..] + ":" + tail;
      SplitAtColon(head[1..], tail);
      assert [head[0]] + head[1..] == head;
    }
  }

  lemma {:induction false} SplitWhole(s: string)
    requires ':' !in s
    ensures Split(s) == [s]
  {
    if s != [] {
      SplitWhole(s[1..]);
      assert [s[0]] + s[1..] == s;
    }
  }

  // ---- The comment ----

  function ToComment(m: RuleMetadata): string {
    PREFIX + ":" + (m.ruleId + ":" + (Print(m.createdAt) + ":" + (Print(m.expiresAt) + ":" + Print(Tag(m.ruleType)))))
  }

  function FromComment(comment: string): Option<RuleMetadata> {
    var parts := Split(comment);
    if |parts| < 5 || parts[0] != PREFIX then None
    else
      var created, expires, tag := ParseUnsigned(parts[2], U64_MAX), ParseUnsigned(parts[3], U64_MAX),
          ParseUnsigned(parts[4], U8_MAX);
      if created.None? || expires.None? || tag.None? || OfTag(tag.value).None? then None
      else Some(RuleMetadata(parts[1], created.value, expires.value, OfTag(tag.value).value))
  }

  lemma {:induction false} PrintedHasNoColon(n: nat)
    ensures ':' !in Print(n)
  {
    assert !IsDigit(':');
  }

  lemma {:induction false} ThreeParts(a: string, b: string, c: string)
    requires ':' !in a && ':' !in b && ':' !in c
    ensures Split(a + ":" + (b + ":" + c)) == [a, b, c]
  {
    SplitAtColon(a, b + ":" + c);
    SplitAtColon(b, c);
    SplitWhole(c);
  }

  lemma {:induction false} FiveParts(head: string, id: string, a: string, b: string, c: string)
    requires ':' !in head && ':' !in id && ':' !in a && ':' !in b && ':' !in c
    ensures Split(head + ":" + (id + ":" + (a + ":" + (b + ":" + c)))) == [head, id, a, b, c]
  {
    var tail := a + ":" + (b + ":" + c);
    SplitAtColon(head, id + ":" + tail);
    SplitAtColon(id, tail);
    ThreeParts(a, b, c);
  }

  lemma CommentParts(m: RuleMetadata)
    requires ':' !in m.ruleId
    ensures Split(ToComment(m)) == [PREFIX, m.ruleId, Print(m.createdAt), Print(m.expiresAt), Print(Tag(m.ruleType))]
  {
    PrintedHasNoColon(m.createdAt);
    PrintedHasNoColon(m.expiresAt);
    PrintedHasNoColon(Tag(m.ruleType));
    assert ':' !in PREFIX;
    FiveParts(PREFIX, m.ruleId, Print(m.createdAt), Print(m.expiresAt), Print(Tag(m.ruleType)));
  }

  /** Metadata comes back from its comment exactly when its rule id has no colon. */
  lemma RoundTripIff(m: RuleMetadata)
    requires m.Fits()
    ensures FromComment(ToComment(m)) == Some(m) <==> ':' !in m.ruleId
  {
    if ':' !in m.ruleId {
      CommentParts(m);
      PrintedParses(m.createdAt, U64_MAX);
      PrintedParses(m.expiresAt, U64_MAX);
      PrintedParses(Tag(m.ruleType), U8_MAX);
    } else {
      PartsHaveNoColon(ToComment(m));
    }
  }
}
