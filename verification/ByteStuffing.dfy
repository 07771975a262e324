/**
 Byte stuffing: some bytes of a message are replaced by longer patterns, and the
 decoder puts the bytes back in the buffer that holds the received message.
 */
module ByteStuffing {
  import opened Common

  /** A rule replaces `key` by `pattern`. Rules are listed in the order the map of the source yields them. */
  datatype Rule = Rule(key: Byte, pattern: seq<Byte>)

  datatype Outcome = Decoded(size: nat) | InvalidRule

  // ----- encoding -----

  predicate HasKey(rules: seq<Rule>, b: Byte) {
    rules != [] && (rules[0].key == b || HasKey(rules[1..], b))
  }

  function PatternFor(rules: seq<Rule>, b: Byte): seq<Byte> {
    if rules == [] then [b]
    else if rules[0].key == b then rules[0].pattern
    else PatternFor(rules[1..], b)
  }

  function Stuffed(rules: seq<Rule>, data: seq<Byte>): seq<Byte> {
    if data == [] then [] else PatternFor(rules, data[0]) + Stuffed(rules, data[1..])
  }

  method ApplyByteStuffing(data: seq<Byte>, rules: seq<Rule>, inserter: seq<Byte>) returns (r: seq<Byte>)
    ensures r == inserter + Stuffed(rules, data)
  {
    r := inserter;
    for i := 0 to |data|
      invariant r + Stuffed(rules, data[i..]) == inserter + Stuffed(rules, data)
    {
      r := r + PatternFor(rules, data[i]);
    }
  }

  // ----- decoding -----

  datatype Match = NoMatch | Matched(rule: Rule) | EmptyPattern

  /** The guard is strict: a pattern that ends the buffer is not replaced. */
  predicate Applies(rule: Rule, rest: seq<Byte>) {
    |rest| > |rule.pattern| && rule.pattern <= rest
  }

  /** Rules are tried in order; one without a pattern is an error only when it is reached. */
  function FirstMatch(rules: seq<Rule>, rest: seq<Byte>): (m: Match)
    ensures m.Matched? ==> m.rule in rules && m.rule.pattern != [] && Applies(m.rule, rest)
  {
    if rules == [] then NoMatch
    else if rules[0].pattern == [] then EmptyPattern
    else if Applies(rules[0], rest) then Matched(rules[0])
    else FirstMatch(rules[1..], rest)
  }

  function Prepend(b: Byte, r: Option<seq<Byte>>): Option<seq<Byte>> {
    match r
    case None => None
    case Some(data) => Some([b] + data)
  }

  /** The decoded message, if no empty pattern is reached. */
  function Unstuffed(rules: seq<Rule>, data: seq<Byte>): Option<seq<Byte>>
    decreases |data|
  {
    if data == [] then Some([]) else
    match FirstMatch(rules, data)
    case EmptyPattern => None
    case NoMatch => Prepend(data[0], Unstuffed(rules, data[1..]))
    case Matched(rule) => Prepend(rule.key, Unstuffed(rules, data[|rule.pattern|..]))
  }

  /** `head` is decoded already; `rest` is still to be decoded. */
  function Joined(head: seq<Byte>, rest: Option<seq<Byte>>): Option<seq<Byte>> {
    match rest
    case None => None
    case Some(data) => Some(head + data)
  }

  lemma JoinedNothing(r: Option<seq<Byte>>)
    ensures Joined([], r) == r
  {
    if r.Some? {
      assert [] + r.value == r.value;
    }
  }

  lemma JoinedEmpty(head: seq<Byte>)
    ensures Joined(head, Some([])) == Some(head)
  {
    assert head + [] == head;
  }

  lemma JoinedPrepend(head: seq<Byte>, b: Byte, r: Option<seq<Byte>>)
    ensures Joined(head, Prepend(b, r)) == Joined(head + [b], r)
  {
    if r.Some? {
      assert head + ([b] + r.value) == head + [b] + r.value;
    }
  }

  /** What is written so far, followed by the decoding of what is still to be read, is the whole message. */
  predicate Progress(rules: seq<Rule>, whole: Option<seq<Byte>>, head: seq<Byte>, rest: seq<Byte>) {
    whole == Joined(head, Unstuffed(rules, rest))
  }

  /** One step of the decoder: `b` comes out and `next` is still to be decoded. */
  lemma {:induction false} DecodeStep(rules: seq<Rule>, rest: seq<Byte>, b: Byte, next: seq<Byte>,
                   whole: Option<seq<Byte>>, head: seq<Byte>)
    requires rest != []
    requires match FirstMatch(rules, rest)
             case EmptyPattern => false
             case NoMatch => b == rest[0] && next == rest[1..]
             case Matched(rule) => b == rule.key && next == rest[|rule.pattern|..]
    requires Progress(rules, whole, head, rest)
    ensures Progress(rules, whole, head + [b], next)
  {
    JoinedPrepend(head, b, Unstuffed(rules, next));
  }

  /** The inner loop of the decoder: the first rule whose pattern is at the read cursor. */
  method FindRule(data: array<Byte>, read: nat, rules: seq<Rule>) returns (m: Match)
    requires read < data.Length
    ensures m == FirstMatch(rules, data[read..])
  {
    ghost var rest := data[read..];
    for i := 0 to |rules|
      invariant FirstMatch(rules, rest) == FirstMatch(rules[i..], rest)
    {
      var rule := rules[i];
      if rule.pattern == [] {
        return EmptyPattern;
      }
      if data.Length - read > |rule.pattern| {
        assert data[read..read + |rule.pattern|] == rest[..|rule.pattern|];
        if data[read..read + |rule.pattern|] == rule.pattern {
          return Matched(rule);
        }
      }
      assert !Applies(rule, rest);
    }
    return NoMatch;
  }

  /** A decoded byte is written over what has been read, never over what has not. */
  method WriteByte(data: array<Byte>, write: nat, read: nat, b: Byte, skip: nat)
    requires write <= read && 0 < skip && read + skip <= data.Length
    modifies data
    ensures data[..write + 1] == old(data[..write]) + [b]
    ensures data[read + skip..] == old(data[read..])[skip..]
  {
    data[write] := b;
  }

  /** The write cursor shares the buffer with the read cursor and never overtakes it. */
  method DecodeByteStuffing(data: array<Byte>, rules: seq<Rule>) returns (r: Outcome)
    modifies data
    ensures r.InvalidRule? <==> Unstuffed(rules, old(data[..])).None?
    ensures r.Decoded? ==> r.size <= data.Length && Unstuffed(rules, old(data[..])) == Some(data[..r.size])
  {
    ghost var was := data[..];
    ghost var whole := Unstuffed(rules, was);
    var write, read := 0, 0;
    ghost var decoded, rest := [], was;
    JoinedNothing(whole);
    while read < data.Length
      invariant 0 <= write <= read <= data.Length
      invariant data[..write] == decoded && data[read..] == rest
      invariant Progress(rules, whole, decoded, rest)
    {
      var m := FindRule(data, read, rules);
      if m == EmptyPattern {
        return InvalidRule;
      }
      var b, skip := data[read], 1;
      if m.Matched? {
        b, skip := m.rule.key, |m.rule.pattern|;
      }
      DecodeStep(rules, rest, b, rest[skip..], whole, decoded);
      WriteByte(data, write, read, b, skip);
      write := write + 1;
      read := read + skip;
      decoded, rest := decoded + [b], rest[skip..];
    }
    JoinedEmpty(decoded);
    return Decoded(write);
  }

  // ----- decoding inverts encoding -----

  /** What a set of rules needs for the message to be recovered. */
  ghost predicate IsCode(rules: seq<Rule>) {
    && (forall r | r in rules :: r.pattern != [] && HasKey(rules, r.pattern[0]))
    && (forall r, q | r in rules && q in rules && r.pattern <= q.pattern :: r == q)
  }

  predicate StartsPattern(rules: seq<Rule>, b: Byte) {
    exists r | r in rules :: r.pattern != [] && r.pattern[0] == b
  }

  lemma {:induction false} NoPatternStarts(rules: seq<Rule>, rest: seq<Byte>)
    requires forall r | r in rules :: r.pattern != []
    requires rest != [] && !StartsPattern(rules, rest[0])
    ensures FirstMatch(rules, rest) == NoMatch
  {
    if rules != [] {
      assert rules[0] in rules;
      NoPatternStarts(rules[1..], rest);
    }
  }

  lemma PrefixesCompare(p: seq<Byte>, q: seq<Byte>, rest: seq<Byte>)
    requires p <= rest && q <= rest
    ensures p <= q || q <= p
  {
  }

  lemma {:induction false} OnlyPatternApplies(rules: seq<Rule>, rule: Rule, rest: seq<Byte>)
    requires forall r | r in rules :: r.pattern != []
    requires forall r | r in rules && (r.pattern <= rule.pattern || rule.pattern <= r.pattern) :: r == rule
    requires rule in rules && Applies(rule, rest)
    ensures FirstMatch(rules, rest) == Matched(rule)
  {
    if rules[0] != rule {
      assert rules[0] in rules;
      if Applies(rules[0], rest) {
        PrefixesCompare(rules[0].pattern, rule.pattern, rest);
        assert false;
      }
      OnlyPatternApplies(rules[1..], rule, rest);
    }
  }

  lemma {:induction false} UnstuffedPattern(rules: seq<Rule>, rule: Rule, more: seq<Byte>)
    requires rule.pattern != [] && FirstMatch(rules, rule.pattern + more) == Matched(rule)
    ensures Unstuffed(rules, rule.pattern + more) == Prepend(rule.key, Unstuffed(rules, more))
  {
  }

  lemma {:induction false} UnstuffedPlain(rules: seq<Rule>, b: Byte, more: seq<Byte>)
    requires FirstMatch(rules, [b] + more) == NoMatch
    ensures Unstuffed(rules, [b] + more) == Prepend(b, Unstuffed(rules, more))
  {
  }

  lemma {:induction false} RuleOfKey(rules: seq<Rule>, b: Byte) returns (rule: Rule)
    requires HasKey(rules, b)
    ensures rule in rules && rule.key == b && PatternFor(rules, b) == rule.pattern
  {
    if rules[0].key == b {
      rule := rules[0];
    } else {
      rule := RuleOfKey(rules[1..], b);
    }
  }

  lemma {:induction false} NotAKey(rules: seq<Rule>, b: Byte)
    requires !HasKey(rules, b)
    ensures PatternFor(rules, b) == [b]
    ensures forall r | r in rules :: r.key != b
  {
    if rules != [] {
      NotAKey(rules[1..], b);
      assert forall r | r in rules :: r == rules[0] || r in rules[1..];
    }
  }

  /** The first stuffed byte is decoded, whatever non-empty data follows it. */
  ghost predicate DecodesFirst(rules: seq<Rule>) {
    forall b, more | more != [] ::
      Unstuffed(rules, PatternFor(rules, b) + more) == Prepend(b, Unstuffed(rules, more))
  }

  /** Stuffed bytes are decoded to the message, whatever non-empty data follows them. */
  lemma {:induction false} StuffedThenTail(rules: seq<Rule>, content: seq<Byte>, tail: seq<Byte>)
    requires DecodesFirst(rules)
    requires tail != []
    ensures Unstuffed(rules, Stuffed(rules, content) + tail) == Joined(content, Unstuffed(rules, tail))
  {
    if content == [] {
      assert Stuffed(rules, content) + tail == tail;
      JoinedNothing(Unstuffed(rules, tail));
    } else {
      var b, rest := content[0], content[1..];
      var more := Stuffed(rules, rest) + tail;
      assert more != [];
      assert Stuffed(rules, content) + tail == PatternFor(rules, b) + more;
      StuffedThenTail(rules, rest, tail);
      JoinedJoined(b, rest, Unstuffed(rules, tail));
      assert content == [b] + rest;
    }
  }

  lemma JoinedJoined(b: Byte, head: seq<Byte>, r: Option<seq<Byte>>)
    ensures Prepend(b, Joined(head, r)) == Joined([b] + head, r)
  {
    if r.Some? {
      assert [b] + (head + r.value) == [b] + head + r.value;
    }
  }

  lemma CodeDecodesFirst(rules: seq<Rule>)
    requires IsCode(rules)
    ensures DecodesFirst(rules)
  {
    forall b, more | more != []
      ensures Unstuffed(rules, PatternFor(rules, b) + more) == Prepend(b, Unstuffed(rules, more))
    {
      UnstuffedFirst(rules, b, more);
    }
  }

  lemma {:induction false} UnstuffedFirst(rules: seq<Rule>, b: Byte, more: seq<Byte>)
    requires IsCode(rules) && more != []
    ensures Unstuffed(rules, PatternFor(rules, b) + more) == Prepend(b, Unstuffed(rules, more))
  {
    if HasKey(rules, b) {
      var rule := RuleOfKey(rules, b);
      PatternsAreCode(rules, rule, more);
      UnstuffedPattern(rules, rule, more);
    } else {
      NotAKey(rules, b);
      NoPatternStarts(rules, [b] + more);
      UnstuffedPlain(rules, b, more);
    }
  }

  lemma {:induction false} PatternsAreCode(rules: seq<Rule>, rule: Rule, more: seq<Byte>)
    requires IsCode(rules) && rule in rules && more != []
    ensures FirstMatch(rules, rule.pattern + more) == Matched(rule)
  {
    assert (rule.pattern + more)[..|rule.pattern|] == rule.pattern;
    OnlyPatternApplies(rules, rule, rule.pattern + more);
  }

  /** A byte that starts no pattern frames the message: the frame bytes stay, the content is recovered. */
  lemma {:induction false} DecodeInvertsStuffing(rules: seq<Rule>, end: Byte, content: seq<Byte>)
    requires IsCode(rules) && !StartsPattern(rules, end)
    ensures Unstuffed(rules, [end] + Stuffed(rules, content) + [end]) == Some([end] + content + [end])
  {
    var inner := Stuffed(rules, content) + [end];
    assert [end] + Stuffed(rules, content) + [end] == [end] + inner;
    NoPatternStarts(rules, [end] + inner);
    UnstuffedPlain(rules, end, inner);
    CodeDecodesFirst(rules);
    StuffedThenTail(rules, content, [end]);
    NoPatternStarts(rules, [end] + []);
    UnstuffedPlain(rules, end, []);
    assert [end] + [] == [end];
    assert [end] + (content + [end]) == [end] + content + [end];
  }

  /** A key that no pattern contains does not occur in stuffed data, so it can mark the end of a frame. */
  lemma {:induction false} FrameByteIsRemoved(rules: seq<Rule>, end: Byte, content: seq<Byte>)
    requires HasKey(rules, end)
    requires forall r | r in rules :: end !in r.pattern
    ensures end !in Stuffed(rules, content)
  {
    if content != [] {
      if HasKey(rules, content[0]) {
        var rule := RuleOfKey(rules, content[0]);
      } else {
        NotAKey(rules, content[0]);
      }
      FrameByteIsRemoved(rules, end, content[1..]);
    }
  }

  // ----- the rules of the Energomera CE protocol (those of RFC 1055) -----

  const END: Byte := 0xC0
  const ESC: Byte := 0xDB
  const ESC_END: Byte := 0xDC
  const ESC_ESC: Byte := 0xDD

  const END_RULE := Rule(END, [ESC, ESC_END])
  const ESC_RULE := Rule(ESC, [ESC, ESC_ESC])

  /** Either order in which an unordered map may yield the two rules. */
  predicate EnergomeraRules(rules: seq<Rule>) {
    rules == [END_RULE, ESC_RULE] || rules == [ESC_RULE, END_RULE]
  }

  lemma {:induction false} EnergomeraRulesAreCode(rules: seq<Rule>)
    requires EnergomeraRules(rules)
    ensures IsCode(rules) && !StartsPattern(rules, END) && HasKey(rules, END)
    ensures forall r | r in rules :: END !in r.pattern
    ensures forall r | r in rules :: |r.pattern| == 2
  {
    assert rules[0] in rules && rules[1] in rules;
    assert forall r | r in rules :: r == END_RULE || r == ESC_RULE;
    assert HasKey(rules, END) && HasKey(rules, ESC) by {
      assert HasKey(rules[1..], rules[1].key);
    }
    forall r, q | r in rules && q in rules && r.pattern <= q.pattern ensures r == q {
      assert r.pattern[1] == q.pattern[1];
    }
  }

  /** Every packet content is recovered, and its bytes never look like the end of the packet. */
  lemma {:induction false} PacketIsRecovered(rules: seq<Rule>, content: seq<Byte>)
    requires EnergomeraRules(rules)
    ensures Unstuffed(rules, [0xC0] + Stuffed(rules, content) + [0xC0]) == Some([0xC0] + content + [0xC0])
    ensures 0xC0 !in Stuffed(rules, content)
    ensures forall r :: r in rules <==> r == Rule(0xC0, [0xDB, 0xDC]) || r == Rule(0xDB, [0xDB, 0xDD])
  {
    EnergomeraRulesAreCode(rules);
    DecodeInvertsStuffing(rules, END, content);
    FrameByteIsRemoved(rules, END, content);
  }

  lemma {:induction false} StuffedOfConcat(rules: seq<Rule>, a: seq<Byte>, b: seq<Byte>)
    ensures Stuffed(rules, a + b) == Stuffed(rules, a) + Stuffed(rules, b)
  {
    if a == [] {
      assert a + b == b;
    } else {
      assert (a + b)[1..] == a[1..] + b;
      StuffedOfConcat(rules, a[1..], b);
    }
  }

  lemma {:induction false} TooShort(rules: seq<Rule>, rest: seq<Byte>)
    requires forall r | r in rules :: r.pattern != [] && |r.pattern| >= |rest|
    ensures FirstMatch(rules, rest) == NoMatch
  {
    if rules != [] {
      assert rules[0] in rules;
      TooShort(rules[1..], rest);
    }
  }

  /** A pattern at the very end of the buffer is left as it is. */
  lemma {:induction false} PatternAtEnd(rules: seq<Rule>, tail: seq<Byte>)
    requires forall r | r in rules :: r.pattern != [] && |r.pattern| >= |tail|
    requires |tail| == 2
    ensures Unstuffed(rules, tail) == Some(tail)
  {
    var first, last := tail[0], tail[1];
    assert tail == [first] + [last] && [last] == [last] + [];
    TooShort(rules, [first] + [last]);
    UnstuffedPlain(rules, first, [last]);
    TooShort(rules, [last] + []);
    UnstuffedPlain(rules, last, []);
  }

  /** The stuffing of the last byte is not undone at the end of the buffer. */
  lemma {:induction false} LastStays(rules: seq<Rule>, last: Byte)
    requires EnergomeraRules(rules)
    ensures Unstuffed(rules, PatternFor(rules, last)) == Some(PatternFor(rules, last))
    ensures |PatternFor(rules, last)| == if HasKey(rules, last) then 2 else 1
    ensures !HasKey(rules, last) ==> PatternFor(rules, last) == [last]
  {
    EnergomeraRulesAreCode(rules);
    if HasKey(rules, last) {
      var rule := RuleOfKey(rules, last);
      PatternAtEnd(rules, rule.pattern);
    } else {
      NotAKey(rules, last);
      NoPatternStarts(rules, [last] + []);
      UnstuffedPlain(rules, last, []);
      assert [last] + [] == [last];
    }
  }

  lemma {:induction false} StuffedSnoc(rules: seq<Rule>, front: seq<Byte>, last: Byte)
    ensures Stuffed(rules, front + [last]) == Stuffed(rules, front) + PatternFor(rules, last)
  {
    StuffedOfConcat(rules, front, [last]);
    assert [last][1..] == [];
    assert PatternFor(rules, last) + [] == PatternFor(rules, last);
  }

  /** Without the closing byte, content is recovered exactly if it does not end with a byte that is stuffed. */
  lemma {:induction false} UnframedContent(rules: seq<Rule>, content: seq<Byte>)
    requires EnergomeraRules(rules)
    ensures Unstuffed(rules, Stuffed(rules, content)) == Some(content)
       <==> content == [] || !HasKey(rules, content[|content| - 1])
  {
    if content != [] {
      var front, last := content[..|content| - 1], content[|content| - 1];
      assert content == front + [last];
      StuffedSnoc(rules, front, last);
      LastStays(rules, last);
      assert DecodesFirst(rules) by {
        EnergomeraRulesAreCode(rules);
        CodeDecodesFirst(rules);
      }
      StuffedThenTail(rules, front, PatternFor(rules, last));
    }
  }
}
