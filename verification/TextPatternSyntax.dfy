/** Which texts spell which patterns, defined over written trees: every scalar says how
    it is written, and a class says where a bare dash stands. The parser accepts exactly
    these texts, with exactly these trees. */
module TextPatternSyntax {
  import opened Basics
  import opened TextPattern

  // ---- Written trees ----

  datatype WrittenScalar = WrittenScalar(scalar: char, escaped: bool)

  datatype WrittenMember = WrittenOne(one: WrittenScalar) | WrittenRange(start: WrittenScalar, end: WrittenScalar)

  datatype WrittenAtom =
    | WrittenLiteral(literal: WrittenScalar)
    | WrittenAny
    | WrittenClass(dashFirst: bool, members: seq<WrittenMember>, dashLast: bool)
    | WrittenGroup(alternatives: seq<WrittenSequence>)

  datatype WrittenSequence = WrittenSequence(repetitions: seq<WrittenRepetition>)

  datatype WrittenRepetition = WrittenRepetition(atom: WrittenAtom, quantifier: Quantifier)

  // ---- Their texts ----

  function ScalarText(s: WrittenScalar): string {
    if s.escaped then ['\\', s.scalar] else [s.scalar]
  }

  function MemberText(member: WrittenMember): string {
    match member
    case WrittenOne(one) => ScalarText(one)
    case WrittenRange(start, end) => ScalarText(start) + ("-" + ScalarText(end))
  }

  function MembersText(members: seq<WrittenMember>): string {
    if members == [] then "" else MemberText(members[0]) + MembersText(members[1..])
  }

  function Dash(present: bool): string {
    if present then "-" else ""
  }

  function QuantifierText(quantifier: Quantifier): string {
    match quantifier
    case One => ""
    case Optional => "?"
    case ZeroOrMore => "*"
    case OneOrMore => "+"
  }

  function AtomText(atom: WrittenAtom): string {
    match atom
    case WrittenLiteral(literal) => ScalarText(literal)
    case WrittenAny => "."
    case WrittenClass(dashFirst, members, dashLast) =>
      "[" + (Dash(dashFirst) + (MembersText(members) + (Dash(dashLast) + "]")))
    case WrittenGroup(alternatives) => "(" + (AlternativesText(alternatives) + ")")
  }

  function RepetitionText(r: WrittenRepetition): string {
    AtomText(r.atom) + QuantifierText(r.quantifier)
  }

  function RepetitionsText(repetitions: seq<WrittenRepetition>): string {
    if repetitions == [] then "" else RepetitionText(repetitions[0]) + RepetitionsText(repetitions[1..])
  }

  function AlternativesText(alternatives: seq<WrittenSequence>): string {
    if alternatives == [] then ""
    else if |alternatives| == 1 then RepetitionsText(alternatives[0].repetitions)
    else RepetitionsText(alternatives[0].repetitions) + ("|" + AlternativesText(alternatives[1..]))
  }

  // ---- Their patterns ----

  function MemberTree(member: WrittenMember): ClassMember {
    match member
    case WrittenOne(one) => Scalar(one.scalar)
    case WrittenRange(start, end) => Range(start.scalar, end.scalar)
  }

  function MembersTree(members: seq<WrittenMember>): seq<ClassMember> {
    if members == [] then [] else [MemberTree(members[0])] + MembersTree(members[1..])
  }

  /** A bare dash stands for itself. */
  function DashTree(present: bool): seq<ClassMember> {
    if present then [Scalar('-')] else []
  }

  function AtomTree(atom: WrittenAtom): Atom {
    match atom
    case WrittenLiteral(literal) => Literal(literal.scalar)
    case WrittenAny => Any
    case WrittenClass(dashFirst, members, dashLast) =>
      Class(DashTree(dashFirst) + (MembersTree(members) + DashTree(dashLast)))
    case WrittenGroup(alternatives) => Group(Pattern(AlternativesTree(alternatives)))
  }

  function RepetitionTree(r: WrittenRepetition): Repetition {
    Repetition(AtomTree(r.atom), r.quantifier)
  }

  function RepetitionsTree(repetitions: seq<WrittenRepetition>): seq<Repetition> {
    if repetitions == [] then [] else [RepetitionTree(repetitions[0])] + RepetitionsTree(repetitions[1..])
  }

  function SequenceTree(sequence: WrittenSequence): Sequence {
    Sequence(RepetitionsTree(sequence.repetitions))
  }

  function AlternativesTree(alternatives: seq<WrittenSequence>): seq<Sequence> {
    if alternatives == [] then [] else [SequenceTree(alternatives[0])] + AlternativesTree(alternatives[1..])
  }

  // ---- What may be written ----

  predicate Escapable(c: char) {
    c in "\\.|?*+()[]{}^$-"
  }

  /** Outside a class the syntax scalars are written escaped, inside one only these. */
  predicate LiteralAllowed(s: WrittenScalar) {
    if s.escaped then Escapable(s.scalar) else s.scalar !in "\\.|?*+()[]{}^$"
  }

  predicate MemberScalarAllowed(s: WrittenScalar) {
    if s.escaped then Escapable(s.scalar) else s.scalar !in "\\[]-"
  }

  predicate MemberAllowed(member: WrittenMember) {
    match member
    case WrittenOne(one) => MemberScalarAllowed(one)
    case WrittenRange(start, end) =>
      MemberScalarAllowed(start) && MemberScalarAllowed(end) && start.scalar <= end.scalar
  }

  predicate MembersAllowed(members: seq<WrittenMember>) {
    members == [] || (MemberAllowed(members[0]) && MembersAllowed(members[1..]))
  }

  /** The scalar a member opens with. */
  function Opens(member: WrittenMember): WrittenScalar {
    if member.WrittenOne? then member.one else member.start
  }

  /** A class has a member, and its first is not a bare caret; a lone dash is a first one. */
  predicate ClassAllowed(dashFirst: bool, members: seq<WrittenMember>, dashLast: bool) {
    && MembersAllowed(members) && (dashFirst || members != [])
    && (!dashFirst ==> Opens(members[0]) != WrittenScalar('^', false))
  }

  predicate AtomAllowed(atom: WrittenAtom, depth: nat)
    decreases atom
  {
    match atom
    case WrittenLiteral(literal) => LiteralAllowed(literal)
    case WrittenAny => true
    case WrittenClass(dashFirst, members, dashLast) => ClassAllowed(dashFirst, members, dashLast)
    case WrittenGroup(alternatives) =>
      depth < 64 && alternatives != [] && AlternativesAllowed(alternatives, depth + 1)
  }

  predicate RepetitionAllowed(r: WrittenRepetition, depth: nat)
    decreases r
  {
    AtomAllowed(r.atom, depth)
  }

  predicate RepetitionsAllowed(repetitions: seq<WrittenRepetition>, depth: nat)
    decreases repetitions
  {
    repetitions == [] || (RepetitionAllowed(repetitions[0], depth) && RepetitionsAllowed(repetitions[1..], depth))
  }

  predicate SequenceAllowed(sequence: WrittenSequence, depth: nat)
    decreases sequence
  {
    RepetitionsAllowed(sequence.repetitions, depth)
  }

  predicate AlternativesAllowed(alternatives: seq<WrittenSequence>, depth: nat)
    decreases alternatives
  {
    alternatives == [] || (SequenceAllowed(alternatives[0], depth) && AlternativesAllowed(alternatives[1..], depth))
  }

  ghost predicate SpelledBy(alternatives: seq<WrittenSequence>, text: string, pattern: Pattern) {
    && alternatives != [] && AlternativesAllowed(alternatives, 0)
    && AlternativesText(alternatives) == text && AlternativesTree(alternatives) == pattern.alternatives
  }

  /** Some allowed way to write the pattern gives the text. */
  ghost predicate Spells(text: string, pattern: Pattern) {
    exists alternatives: seq<WrittenSequence> :: SpelledBy(alternatives, text, pattern)
  }

  // ---- Every spelling is read as its pattern ----

  lemma ScalarRead(s: WrittenScalar, rest: string)
    requires MemberScalarAllowed(s)
    ensures ParseClassScalar(ScalarText(s) + rest) == Ok((s.scalar, rest))
    ensures ScalarText(s) != [] && (ScalarText(s) + rest)[0] !in ['-', ']']
    ensures (ScalarText(s) + rest)[0] == '^' <==> s == WrittenScalar('^', false)
  {
    Front(ScalarText(s), rest);
    if s.escaped {
      assert ScalarText(s)[1..] == [s.scalar];
      EscapeRoundTrip(s.scalar, rest);
    } else {
      assert ScalarText(s)[1..] + rest == rest;
    }
  }

  /** What follows a member: not a dash, unless that dash ends the class. */
  predicate AfterMember(rest: string) {
    |rest| > 0 && (rest[0] == '-' ==> |rest| > 1 && rest[1] == ']')
  }

  lemma MemberRead(member: WrittenMember, rest: string)
    requires MemberAllowed(member) && AfterMember(rest)
    ensures ParseMember(MemberText(member) + rest) == Ok((MemberTree(member), rest))
    ensures MemberText(member) != [] && (MemberText(member) + rest)[0] !in ['-', ']']
    ensures (MemberText(member) + rest)[0] == '^' <==> Opens(member) == WrittenScalar('^', false)
  {
    match member
    case WrittenOne(one) => ScalarRead(one, rest);
    case WrittenRange(start, end) =>
      var tail := "-" + (ScalarText(end) + rest);
      RangeText(start, end, rest);
      ScalarRead(start, tail);
      ScalarRead(end, rest);
      Front("-", ScalarText(end) + rest);
  }

  lemma RangeText(start: WrittenScalar, end: WrittenScalar, rest: string)
    ensures MemberText(WrittenRange(start, end)) + rest == ScalarText(start) + ("-" + (ScalarText(end) + rest))
  {
  }

  lemma ClosingRead(dashLast: bool, rest: string)
    ensures ParseMembers(Dash(dashLast) + ("]" + rest)) == Ok((DashTree(dashLast), rest))
    ensures AfterMember(Dash(dashLast) + ("]" + rest))
  {
    Front("]", rest);
    assert ParseMembers("]" + rest) == Ok(([], rest));
    if dashLast {
      Front("-", "]" + rest);
      assert [Scalar('-')] + [] == DashTree(true);
    } else {
      assert "" + ("]" + rest) == "]" + rest;
    }
  }

  lemma {:induction false} MembersRead(members: seq<WrittenMember>, dashLast: bool, rest: string)
    requires MembersAllowed(members)
    ensures ParseMembers(MembersText(members) + (Dash(dashLast) + ("]" + rest)))
         == Ok((MembersTree(members) + DashTree(dashLast), rest))
    ensures AfterMember(MembersText(members) + (Dash(dashLast) + ("]" + rest)))
  {
    var closing := Dash(dashLast) + ("]" + rest);
    ClosingRead(dashLast, rest);
    if members == [] {
      assert MembersText(members) + closing == closing;
      assert MembersTree(members) + DashTree(dashLast) == DashTree(dashLast);
    } else {
      var tail := MembersText(members[1..]) + closing;
      MembersRead(members[1..], dashLast, rest);
      MemberRead(members[0], tail);
      Associative(MemberText(members[0]), MembersText(members[1..]), closing);
      MembersStep(MemberText(members[0]) + tail, MemberTree(members[0]), tail);
      Associative([MemberTree(members[0])], MembersTree(members[1..]), DashTree(dashLast));
    }
  }

  lemma ClassRead(dashFirst: bool, members: seq<WrittenMember>, dashLast: bool, rest: string)
    requires ClassAllowed(dashFirst, members, dashLast)
    ensures ParseClass(Dash(dashFirst) + (MembersText(members) + (Dash(dashLast) + ("]" + rest))))
         == Ok((DashTree(dashFirst) + (MembersTree(members) + DashTree(dashLast)), rest))
  {
    var body := MembersText(members) + (Dash(dashLast) + ("]" + rest));
    MembersRead(members, dashLast, rest);
    if dashFirst {
      Front("-", body);
    } else {
      BodyOpens(members, Dash(dashLast) + ("]" + rest), dashLast, rest);
      assert "" + body == body;
      assert [] + (MembersTree(members) + DashTree(dashLast)) == MembersTree(members) + DashTree(dashLast);
    }
  }

  /** A class body without a first dash opens with its first member. */
  lemma BodyOpens(members: seq<WrittenMember>, closing: string, dashLast: bool, rest: string)
    requires MembersAllowed(members) && members != [] && Opens(members[0]) != WrittenScalar('^', false)
    requires closing == Dash(dashLast) + ("]" + rest)
    ensures MembersText(members) + closing != [] && (MembersText(members) + closing)[0] !in ['-', '^']
    ensures MembersTree(members) + DashTree(dashLast) != []
  {
    var tail := MembersText(members[1..]) + closing;
    MembersRead(members[1..], dashLast, rest);
    MemberRead(members[0], tail);
    Associative(MemberText(members[0]), MembersText(members[1..]), closing);
  }

  lemma ClassTextThen(dashFirst: bool, members: seq<WrittenMember>, dashLast: bool, rest: string)
    ensures AtomText(WrittenClass(dashFirst, members, dashLast)) + rest
         == "[" + (Dash(dashFirst) + (MembersText(members) + (Dash(dashLast) + ("]" + rest))))
  {
    var a, b, c := Dash(dashFirst), MembersText(members), Dash(dashLast);
    Nested(a, b, c, rest);
  }

  lemma Nested(a: string, b: string, c: string, rest: string)
    ensures "[" + (a + (b + (c + "]"))) + rest == "[" + (a + (b + (c + ("]" + rest))))
  {
  }

  lemma Bracketed(body: string, rest: string)
    ensures "(" + (body + ")") + rest == "(" + (body + (")" + rest))
  {
  }

  /** An atom opens with a scalar that neither ends a sequence nor quantifies. */
  predicate StartsAtom(text: string) {
    |text| > 0 && text[0] !in ['|', ')', '?', '*', '+']
  }

  lemma LiteralRead(s: WrittenScalar, depth: nat, rest: string)
    requires LiteralAllowed(s)
    ensures StartsAtom(ScalarText(s) + rest)
    ensures ParseAtom(ScalarText(s) + rest, depth, Glam) == Ok((Literal(s.scalar), rest))
  {
    Front(ScalarText(s), rest);
    if s.escaped {
      assert ScalarText(s)[1..] == [s.scalar];
      EscapeRoundTrip(s.scalar, rest);
    } else {
      assert ScalarText(s)[1..] + rest == rest;
    }
  }

  lemma {:induction false} AtomRead(atom: WrittenAtom, depth: nat, rest: string)
    requires AtomAllowed(atom, depth)
    ensures StartsAtom(AtomText(atom) + rest)
    ensures ParseAtom(AtomText(atom) + rest, depth, Glam) == Ok((AtomTree(atom), rest))
    decreases atom
  {
    match atom
    case WrittenLiteral(literal) => LiteralRead(literal, depth, rest);
    case WrittenAny => Front(".", rest);
    case WrittenClass(dashFirst, members, dashLast) => ClassAtomRead(dashFirst, members, dashLast, depth, rest);
    case WrittenGroup(alternatives) =>
      AlternativesRead(alternatives, Some(')'), depth + 1, ")" + rest);
      GroupAtomRead(alternatives, depth, rest);
  }

  lemma ClassAtomRead(dashFirst: bool, members: seq<WrittenMember>, dashLast: bool, depth: nat, rest: string)
    requires ClassAllowed(dashFirst, members, dashLast)
    ensures var atom := WrittenClass(dashFirst, members, dashLast);
            && StartsAtom(AtomText(atom) + rest)
            && ParseAtom(AtomText(atom) + rest, depth, Glam) == Ok((AtomTree(atom), rest))
  {
    ClassTextThen(dashFirst, members, dashLast, rest);
    ClassRead(dashFirst, members, dashLast, rest);
    Front("[", Dash(dashFirst) + (MembersText(members) + (Dash(dashLast) + ("]" + rest))));
  }

  lemma GroupAtomRead(alternatives: seq<WrittenSequence>, depth: nat, rest: string)
    requires depth < 64
    requires ParseAlternatives(AlternativesText(alternatives) + (")" + rest), Some(')'), depth + 1, Glam)
          == Ok((AlternativesTree(alternatives), ")" + rest))
    ensures var atom := WrittenGroup(alternatives);
            && StartsAtom(AtomText(atom) + rest)
            && ParseAtom(AtomText(atom) + rest, depth, Glam) == Ok((AtomTree(atom), rest))
  {
    var body := AlternativesText(alternatives) + (")" + rest);
    Bracketed(AlternativesText(alternatives), rest);
    Front("(", body);
    Front(")", rest);
  }

  lemma QuantifierRead(quantifier: Quantifier, rest: string)
    requires rest == [] || rest[0] !in ['?', '*', '+']
    ensures ParseQuantifier(QuantifierText(quantifier) + rest) == (quantifier, rest)
  {
    QuantifierRoundTrip(quantifier, rest);
    assert QuantifierText(quantifier) == EmitQuantifier(quantifier);
  }

  lemma {:induction false} RepetitionRead(r: WrittenRepetition, closing: Option<char>, depth: nat, tail: string)
    requires RepetitionAllowed(r, depth) && (tail == [] || tail[0] !in ['?', '*', '+'])
    requires closing == None || closing == Some(')')
    ensures ParseRepetitions(RepetitionText(r) + tail, closing, depth, Glam)
         == Cons(RepetitionTree(r), ParseRepetitions(tail, closing, depth, Glam))
    ensures StartsAtom(RepetitionText(r) + tail)
    decreases r
  {
    var after := QuantifierText(r.quantifier) + tail;
    Associative(AtomText(r.atom), QuantifierText(r.quantifier), tail);
    QuantifierRead(r.quantifier, tail);
    AtomRead(r.atom, depth, after);
    RepetitionsStep(AtomText(r.atom) + after, closing, depth, Glam, RepetitionTree(r), after, tail);
  }

  lemma {:induction false} RepetitionsRead(repetitions: seq<WrittenRepetition>, closing: Option<char>, depth: nat,
                                           rest: string)
    requires RepetitionsAllowed(repetitions, depth) && SequenceEnds(rest, closing)
    requires closing == None || closing == Some(')')
    ensures ParseRepetitions(RepetitionsText(repetitions) + rest, closing, depth, Glam)
         == Ok((RepetitionsTree(repetitions), rest))
    ensures var text := RepetitionsText(repetitions) + rest;
            text == [] || text[0] !in ['?', '*', '+']
    decreases repetitions
  {
    if repetitions == [] {
      assert RepetitionsText(repetitions) + rest == rest;
    } else {
      var tail := RepetitionsText(repetitions[1..]) + rest;
      RepetitionsRead(repetitions[1..], closing, depth, rest);
      RepetitionRead(repetitions[0], closing, depth, tail);
      Associative(RepetitionText(repetitions[0]), RepetitionsText(repetitions[1..]), rest);
    }
  }

  lemma {:induction false} SequenceRead(sequence: WrittenSequence, closing: Option<char>, depth: nat, rest: string)
    requires SequenceAllowed(sequence, depth) && SequenceEnds(rest, closing)
    requires closing == None || closing == Some(')')
    ensures ParseRepetitions(RepetitionsText(sequence.repetitions) + rest, closing, depth, Glam)
         == Ok((SequenceTree(sequence).repetitions, rest))
    decreases sequence
  {
    RepetitionsRead(sequence.repetitions, closing, depth, rest);
  }

  lemma {:induction false} AlternativesRead(alternatives: seq<WrittenSequence>, closing: Option<char>, depth: nat,
                                            rest: string)
    requires alternatives != [] && AlternativesAllowed(alternatives, depth)
    requires closing == None || closing == Some(')')
    requires rest == [] || closing == Some(rest[0])
    ensures ParseAlternatives(AlternativesText(alternatives) + rest, closing, depth, Glam)
         == Ok((AlternativesTree(alternatives), rest))
    decreases alternatives
  {
    var text := AlternativesText(alternatives) + rest;
    var first, tree := RepetitionsText(alternatives[0].repetitions), SequenceTree(alternatives[0]).repetitions;
    if |alternatives| == 1 {
      SequenceRead(alternatives[0], closing, depth, rest);
      AlternativesLast(text, closing, depth, Glam, tree, rest);
      assert [SequenceTree(alternatives[0])] + [] == [SequenceTree(alternatives[0])];
    } else {
      var tail := AlternativesText(alternatives[1..]) + rest;
      AlternativesRead(alternatives[1..], closing, depth, rest);
      SequenceRead(alternatives[0], closing, depth, "|" + tail);
      Barred(first, AlternativesText(alternatives[1..]), rest);
      AlternativesStep(text, closing, depth, Glam, tree, tail);
    }
  }

  lemma Barred(first: string, others: string, rest: string)
    ensures first + ("|" + others) + rest == first + ("|" + (others + rest))
  {
  }

  // ---- Whatever is read was spelled ----

  lemma Rejoined(input: string)
    requires input != []
    ensures [input[0]] + input[1..] == input
  {
  }

  lemma EscapeSpelled(input: string) returns (s: WrittenScalar)
    requires input != [] && input[0] == '\\' && ParseEscape(input[1..]).Ok?
    ensures s.escaped && Escapable(s.scalar)
    ensures var (c, rest) := ParseEscape(input[1..]).value; s.scalar == c && input == ScalarText(s) + rest
  {
    s := WrittenScalar(input[1], true);
    Rejoined(input);
    Rejoined(input[1..]);
    Associative([input[0]], [input[1]], input[2..]);
  }

  lemma ScalarSpelled(input: string) returns (s: WrittenScalar)
    requires ParseClassScalar(input).Ok?
    ensures MemberScalarAllowed(s)
    ensures var (c, rest) := ParseClassScalar(input).value; s.scalar == c && input == ScalarText(s) + rest
  {
    if input[0] == '\\' {
      s := EscapeSpelled(input);
    } else {
      s := WrittenScalar(input[0], false);
      Rejoined(input);
    }
  }

  lemma MemberSpelled(input: string) returns (member: WrittenMember)
    requires ParseMember(input).Ok?
    ensures MemberAllowed(member)
    ensures var (tree, rest) := ParseMember(input).value;
            MemberTree(member) == tree && input == MemberText(member) + rest
  {
    var start := ScalarSpelled(input);
    var (_, rest) := ParseClassScalar(input).value;
    if |rest| > 0 && rest[0] == '-' && !(|rest| > 1 && rest[1] == ']') {
      var end := ScalarSpelled(rest[1..]);
      Rejoined(rest);
      member := WrittenRange(start, end);
      RangeText(start, end, ParseClassScalar(rest[1..]).value.1);
    } else {
      member := WrittenOne(start);
    }
  }

  lemma {:induction false} MembersSpelled(input: string) returns (members: seq<WrittenMember>, dashLast: bool)
    requires ParseMembers(input).Ok?
    ensures MembersAllowed(members)
    ensures var (tree, rest) := ParseMembers(input).value;
            && tree == MembersTree(members) + DashTree(dashLast)
            && input == MembersText(members) + (Dash(dashLast) + ("]" + rest))
    decreases |input|
  {
    var (tree, rest) := ParseMembers(input).value;
    Rejoined(input);
    if input[0] == ']' {
      members, dashLast := [], false;
      assert input == "" + ("" + ("]" + rest));
    } else if input[0] == '-' {
      members, dashLast := [], true;
      Rejoined(input[1..]);
      assert input == "" + ("-" + ("]" + rest));
    } else {
      var member := MemberSpelled(input);
      var (_, after) := ParseMember(input).value;
      var others;
      others, dashLast := MembersSpelled(after);
      members := [member] + others;
      assert members[1..] == others;
      Associative(MemberText(member), MembersText(others), Dash(dashLast) + ("]" + rest));
      Associative([MemberTree(member)], MembersTree(others), DashTree(dashLast));
    }
  }

  lemma ClassSpelled(input: string) returns (dashFirst: bool, members: seq<WrittenMember>, dashLast: bool)
    requires ParseClass(input).Ok?
    ensures ClassAllowed(dashFirst, members, dashLast)
    ensures var (tree, rest) := ParseClass(input).value;
            && tree == DashTree(dashFirst) + (MembersTree(members) + DashTree(dashLast))
            && input == Dash(dashFirst) + (MembersText(members) + (Dash(dashLast) + ("]" + rest)))
  {
    var (tree, rest) := ParseClass(input).value;
    dashFirst := |input| > 0 && input[0] == '-';
    if dashFirst {
      Rejoined(input);
      members, dashLast := MembersSpelled(input[1..]);
    } else {
      members, dashLast := MembersSpelled(input);
      NotCaret(input, members, dashLast, rest);
      assert [] + tree == tree && "" + input == input;
    }
  }

  lemma NotCaret(input: string, members: seq<WrittenMember>, dashLast: bool, rest: string)
    requires input != [] && input[0] !in ['-', '^'] && MembersAllowed(members)
    requires input == MembersText(members) + (Dash(dashLast) + ("]" + rest))
    requires MembersTree(members) + DashTree(dashLast) != []
    ensures members != [] && Opens(members[0]) != WrittenScalar('^', false)
  {
    var closing := Dash(dashLast) + ("]" + rest);
    assert members == [] ==> input == closing;
    if members != [] {
      var tail := MembersText(members[1..]) + closing;
      MembersRead(members[1..], dashLast, rest);
      MemberRead(members[0], tail);
      Associative(MemberText(members[0]), MembersText(members[1..]), closing);
    }
  }

  lemma {:induction false} AtomSpelled(input: string, depth: nat) returns (atom: WrittenAtom)
    requires !AtAlternation(input) && ParseAtom(input, depth, Glam).Ok?
    ensures AtomAllowed(atom, depth)
    ensures var (tree, rest) := ParseAtom(input, depth, Glam).value;
            AtomTree(atom) == tree && input == AtomText(atom) + rest
    decreases |input|, 0
  {
    var (tree, rest) := ParseAtom(input, depth, Glam).value;
    Rejoined(input);
    if input[0] == '\\' {
      var s := EscapeSpelled(input);
      atom := WrittenLiteral(s);
    } else if input[0] == '.' {
      atom := WrittenAny;
    } else if input[0] == '(' {
      var alternatives := AlternativesSpelled(input[1..], Some(')'), depth + 1);
      atom := WrittenGroup(alternatives);
      var (_, after) := ParseAlternatives(input[1..], Some(')'), depth + 1, Glam).value;
      Rejoined(after);
      Bracketed(AlternativesText(alternatives), rest);
    } else if input[0] == '[' {
      var dashFirst, members, dashLast := ClassSpelled(input[1..]);
      atom := WrittenClass(dashFirst, members, dashLast);
      ClassTextThen(dashFirst, members, dashLast, rest);
    } else {
      atom := WrittenLiteral(WrittenScalar(input[0], false));
    }
  }

  lemma QuantifierSpelled(input: string)
    ensures var (quantifier, rest) := ParseQuantifier(input); input == QuantifierText(quantifier) + rest
  {
    if input != [] {
      Rejoined(input);
    }
  }

  lemma {:induction false} RepetitionsSpelled(input: string, closing: Option<char>, depth: nat)
    returns (repetitions: seq<WrittenRepetition>)
    requires ParseRepetitions(input, closing, depth, Glam).Ok?
    ensures RepetitionsAllowed(repetitions, depth)
    ensures var (tree, rest) := ParseRepetitions(input, closing, depth, Glam).value;
            RepetitionsTree(repetitions) == tree && input == RepetitionsText(repetitions) + rest
    decreases |input|, 1
  {
    if SequenceEnds(input, closing) {
      repetitions := [];
    } else {
      var atom := AtomSpelled(input, depth);
      var (_, after) := ParseAtom(input, depth, Glam).value;
      var (quantifier, tail) := ParseQuantifier(after);
      QuantifierSpelled(after);
      var others := RepetitionsSpelled(tail, closing, depth);
      var r := WrittenRepetition(atom, quantifier);
      repetitions := [r] + others;
      assert repetitions[1..] == others;
      var (_, rest) := ParseRepetitions(tail, closing, depth, Glam).value;
      Associative(AtomText(atom), QuantifierText(quantifier), tail);
      Associative(RepetitionText(r), RepetitionsText(others), rest);
    }
  }

  lemma {:induction false} AlternativesSpelled(input: string, closing: Option<char>, depth: nat)
    returns (alternatives: seq<WrittenSequence>)
    requires ParseAlternatives(input, closing, depth, Glam).Ok?
    ensures alternatives != [] && AlternativesAllowed(alternatives, depth)
    ensures var (tree, rest) := ParseAlternatives(input, closing, depth, Glam).value;
            AlternativesTree(alternatives) == tree && input == AlternativesText(alternatives) + rest
    decreases |input|, 2
  {
    var repetitions := RepetitionsSpelled(input, closing, depth);
    var (_, after) := ParseRepetitions(input, closing, depth, Glam).value;
    var first := WrittenSequence(repetitions);
    assert SequenceAllowed(first, depth);
    if AtAlternation(after) {
      Rejoined(after);
      var others := AlternativesSpelled(after[1..], closing, depth);
      alternatives := [first] + others;
      assert alternatives[1..] == others;
      Barred(RepetitionsText(repetitions), AlternativesText(others),
             ParseAlternatives(after[1..], closing, depth, Glam).value.1);
    } else {
      alternatives := [first];
      assert alternatives[1..] == [];
    }
  }

  /** The parser accepts a text with a pattern exactly when the text spells the pattern. */
  lemma ParsesExactlySpellings(text: string, pattern: Pattern)
    ensures ParseText(text, Glam) == Ok(pattern) <==> Spells(text, pattern)
  {
    if ParseText(text, Glam) == Ok(pattern) {
      var alternatives := AlternativesSpelled(text, None, 0);
      assert AlternativesText(alternatives) + [] == AlternativesText(alternatives);
      assert SpelledBy(alternatives, text, pattern);
    }
    if Spells(text, pattern) {
      var alternatives: seq<WrittenSequence> :| SpelledBy(alternatives, text, pattern);
      AlternativesRead(alternatives, None, 0, []);
      assert AlternativesText(alternatives) + [] == text;
    }
  }

  /** How many scalars are not below a limit. */
  function CountFrom(text: string, limit: int): nat {
    if text == [] then 0
    else CountFrom(text[..|text| - 1], limit) + if text[|text| - 1] as int >= limit then 1 else 0
  }

  lemma {:induction false} CountFromFirst(text: string, limit: int)
    requires text != []
    ensures CountFrom(text, limit) == (if text[0] as int >= limit then 1 else 0) + CountFrom(text[1..], limit)
  {
    if |text| > 1 {
      CountFromFirst(text[..|text| - 1], limit);
      assert text[..|text| - 1][1..] == text[1..][..|text| - 2];
    } else {
      assert text[..0] == [] && text[1..] == [];
    }
  }

  /** UTF-8 spends one byte on a scalar, and one more from each of U+0080, U+0800 and
      U+10000 on (RFC 3629, section 3). */
  lemma {:induction false} Utf8Size(text: string)
    ensures Utf8Bytes(text) ==
            |text| + CountFrom(text, 0x80) + CountFrom(text, 0x800) + CountFrom(text, 0x1_0000)
  {
    if text != [] {
      Utf8Size(text[1..]);
      CountFromFirst(text, 0x80);
      CountFromFirst(text, 0x800);
      CountFromFirst(text, 0x1_0000);
    }
  }

  /** A source is accepted exactly when it is within the byte limit and spells some
      pattern, which is then the only one it spells. */
  lemma AcceptsExactlySpellings(source: string)
    ensures Parse(source).Ok? <==>
            Utf8Bytes(source) <= 16384 && exists pattern :: Spells(source, pattern)
    ensures Parse(source).Ok? ==> forall pattern :: Spells(source, pattern) <==> Parse(source) == Ok(pattern)
  {
    forall pattern: Pattern
      ensures ParseText(source, Glam) == Ok(pattern) <==> Spells(source, pattern)
    {
      ParsesExactlySpellings(source, pattern);
    }
    if Parse(source).Ok? {
      assert Spells(source, Parse(source).value);
    }
  }
}
