/** Text patterns: their syntax tree, the grammar Glam accepts and the escaping
    emitter that spells a tree for the matcher backend. */
module TextPattern {
  import opened Basics

  const MAX_PATTERN_BYTES := 16 * 1024
  const MAX_PATTERN_GROUP_DEPTH := 64

  datatype Pattern = Pattern(alternatives: seq<Sequence>)

  datatype Sequence = Sequence(repetitions: seq<Repetition>)

  datatype Repetition = Repetition(atom: Atom, quantifier: Quantifier)

  datatype Atom = Literal(scalar: char) | Any | Class(members: seq<ClassMember>) | Group(pattern: Pattern)

  datatype ClassMember = Scalar(scalar: char) | Range(start: char, end: char)

  datatype Quantifier = One | Optional | ZeroOrMore | OneOrMore

  /** How a group opens: `(` in Glam's grammar, `(?:` in the backend's. */
  datatype Dialect = Glam | Backend

  datatype PatternError =
    | TooManyBytes | UnexpectedClosing | AtomExpected | TooDeep | UnclosedGroup
    | UnmatchedParenthesis | UnmatchedClass | DanglingQuantifier | Reserved(scalar: char)
    | NegatedClass | UnclosedClass | MisplacedDash | ReversedRange | EmptyClass
    | ClassScalarExpected | ClassScalarReserved(scalar: char)
    | DanglingEscape | UnsupportedEscape(scalar: char) | UnsupportedGroup

  // ---- Emission ----

  predicate NeedsEscape(c: char) {
    c in ['\\', '.', '|', '?', '*', '+', '(', ')', '[', ']', '{', '}', '^', '$']
  }

  predicate NeedsClassEscape(c: char) {
    c in ['\\', '[', ']', '-', '^']
  }

  function EmitLiteral(c: char): string {
    if NeedsEscape(c) then ['\\', c] else [c]
  }

  function EmitClassLiteral(c: char): string {
    if NeedsClassEscape(c) then ['\\', c] else [c]
  }

  function EmitMember(member: ClassMember): string {
    match member
    case Scalar(c) => EmitClassLiteral(c)
    case Range(start, end) => EmitClassLiteral(start) + "-" + EmitClassLiteral(end)
  }

  function EmitMembers(members: seq<ClassMember>): string {
    if members == [] then "" else EmitMember(members[0]) + EmitMembers(members[1..])
  }

  function EmitQuantifier(quantifier: Quantifier): string {
    match quantifier
    case One => ""
    case Optional => "?"
    case ZeroOrMore => "*"
    case OneOrMore => "+"
  }

  function Opener(dialect: Dialect): string {
    if dialect.Backend? then "(?:" else "("
  }

  function EmitAtom(atom: Atom, dialect: Dialect): string
    decreases atom
  {
    match atom
    case Literal(c) => EmitLiteral(c)
    case Any => "."
    case Class(members) => "[" + EmitMembers(members) + "]"
    case Group(pattern) => Opener(dialect) + EmitAlternatives(pattern.alternatives, dialect) + ")"
  }

  function EmitRepetition(repetition: Repetition, dialect: Dialect): string
    decreases repetition
  {
    EmitAtom(repetition.atom, dialect) + EmitQuantifier(repetition.quantifier)
  }

  function EmitRepetitions(repetitions: seq<Repetition>, dialect: Dialect): string
    decreases repetitions
  {
    if repetitions == [] then ""
    else EmitRepetition(repetitions[0], dialect) + EmitRepetitions(repetitions[1..], dialect)
  }

  function EmitAlternatives(alternatives: seq<Sequence>, dialect: Dialect): string
    decreases alternatives
  {
    if alternatives == [] then ""
    else
      var first := EmitRepetitions(alternatives[0].repetitions, dialect);
      if |alternatives| == 1 then first
      else first + "|" + EmitAlternatives(alternatives[1..], dialect)
  }

  function Emit(pattern: Pattern, dialect: Dialect): string {
    EmitAlternatives(pattern.alternatives, dialect)
  }

  // ---- What the grammar guarantees about a tree ----

  predicate GoodMember(member: ClassMember) {
    member.Range? ==> member.start <= member.end
  }

  predicate GoodMembers(members: seq<ClassMember>) {
    forall i :: 0 <= i < |members| ==> GoodMember(members[i])
  }

  predicate GoodAtom(atom: Atom, depth: nat)
    decreases atom
  {
    match atom
    case Literal(_) => true
    case Any => true
    case Class(members) => members != [] && GoodMembers(members)
    case Group(pattern) =>
      depth < MAX_PATTERN_GROUP_DEPTH && pattern.alternatives != [] &&
      GoodAlternatives(pattern.alternatives, depth + 1)
  }

  predicate GoodRepetition(repetition: Repetition, depth: nat)
    decreases repetition
  {
    GoodAtom(repetition.atom, depth)
  }

  predicate GoodRepetitions(repetitions: seq<Repetition>, depth: nat)
    decreases repetitions
  {
    repetitions == [] || (GoodRepetition(repetitions[0], depth) && GoodRepetitions(repetitions[1..], depth))
  }

  predicate GoodAlternatives(alternatives: seq<Sequence>, depth: nat)
    decreases alternatives
  {
    alternatives == [] ||
    (GoodRepetitions(alternatives[0].repetitions, depth) && GoodAlternatives(alternatives[1..], depth))
  }

  predicate Good(pattern: Pattern) {
    pattern.alternatives != [] && GoodAlternatives(pattern.alternatives, 0)
  }

  // ---- The grammar, on the text still to read ----

  type Parsed<T> = Result<(T, string), PatternError>

  predicate IsReserved(c: char) {
    c in ['|', '?', '*', '+', '{', '}', '^', '$', '\\']
  }

  predicate IsEscapable(c: char) {
    c in ['\\', '.', '|', '?', '*', '+', '(', ')', '[', ']', '{', '}', '^', '$', '-']
  }

  function ParseEscape(input: string): (r: Parsed<char>)
    ensures r.Ok? ==> |r.value.1| < |input|
  {
    if input == [] then Err(DanglingEscape)
    else if IsEscapable(input[0]) then Ok((input[0], input[1..]))
    else Err(UnsupportedEscape(input[0]))
  }

  function ParseClassScalar(input: string): (r: Parsed<char>)
    ensures r.Ok? ==> |r.value.1| < |input|
  {
    if input == [] then Err(ClassScalarExpected)
    else if input[0] == '\\' then ParseEscape(input[1..])
    else if input[0] in ['[', ']', '-'] then Err(ClassScalarReserved(input[0]))
    else Ok((input[0], input[1..]))
  }

  /** One scalar, or a range when a dash follows that does not end the class. */
  function ParseMember(input: string): (r: Parsed<ClassMember>)
    ensures r.Ok? ==> |r.value.1| < |input| && GoodMember(r.value.0)
  {
    match ParseClassScalar(input)
    case Err(e) => Err(e)
    case Ok((start, rest)) =>
      if |rest| > 0 && rest[0] == '-' && !(|rest| > 1 && rest[1] == ']') then
        match ParseClassScalar(rest[1..])
        case Err(e) => Err(e)
        case Ok((end, after)) => if start > end then Err(ReversedRange) else Ok((Range(start, end), after))
      else Ok((Scalar(start), rest))
  }

  /** The members up to and including the closing bracket. */
  function ParseMembers(input: string): (r: Parsed<seq<ClassMember>>)
    ensures r.Ok? ==> |r.value.1| < |input| && GoodMembers(r.value.0)
    decreases |input|
  {
    if input == [] then Err(UnclosedClass)
    else if input[0] == ']' then Ok(([], input[1..]))
    else if input[0] == '-' then
      if |input| > 1 && input[1] == ']' then Cons(Scalar('-'), ParseMembers(input[1..]))
      else Err(MisplacedDash)
    else
      match ParseMember(input)
      case Err(e) => Err(e)
      case Ok((member, rest)) => Cons(member, ParseMembers(rest))
  }

  function Cons<T>(head: T, tail: Parsed<seq<T>>): Parsed<seq<T>> {
    match tail
    case Err(e) => Err(e)
    case Ok((items, rest)) => Ok(([head] + items, rest))
  }

  function ParseClass(input: string): (r: Parsed<seq<ClassMember>>)
    ensures r.Ok? ==> |r.value.1| < |input| && r.value.0 != [] && GoodMembers(r.value.0)
  {
    if |input| > 0 && input[0] == '^' then Err(NegatedClass)
    else
      var members :=
        if |input| > 0 && input[0] == '-' then Cons(Scalar('-'), ParseMembers(input[1..]))
        else ParseMembers(input);
      if members.Ok? && members.value.0 == [] then Err(EmptyClass) else members
  }

  function ParseQuantifier(input: string): (Quantifier, string) {
    if input == [] then (One, input)
    else if input[0] == '?' then (Optional, input[1..])
    else if input[0] == '*' then (ZeroOrMore, input[1..])
    else if input[0] == '+' then (OneOrMore, input[1..])
    else (One, input)
  }

  predicate AtAlternation(input: string) {
    |input| > 0 && input[0] == '|'
  }

  /** A sequence ends at the end of the text, at `|` or at the closing scalar. */
  predicate SequenceEnds(input: string, closing: Option<char>) {
    input == [] || closing == Some(input[0]) || AtAlternation(input)
  }

  function ParseAtom(input: string, depth: nat, dialect: Dialect): (r: Parsed<Atom>)
    requires !AtAlternation(input)
    ensures r.Ok? ==> |r.value.1| < |input| && GoodAtom(r.value.0, depth)
    decreases |input|, 0
  {
    if input == [] then Err(AtomExpected)
    else
      var rest := input[1..];
      match input[0]
      case '\\' => (match ParseEscape(rest) case Err(e) => Err(e) case Ok((c, after)) => Ok((Literal(c), after)))
      case '.' => Ok((Any, rest))
      case '(' =>
        if depth >= MAX_PATTERN_GROUP_DEPTH then Err(TooDeep)
        else if dialect.Backend? && !("?:" <= rest) then Err(UnsupportedGroup)
        else
          var body := if dialect.Backend? then rest[2..] else rest;
          (match ParseAlternatives(body, Some(')'), depth + 1, dialect)
           case Err(e) => Err(e)
           case Ok((alternatives, after)) =>
             if |after| > 0 && after[0] == ')' then Ok((Group(Pattern(alternatives)), after[1..]))
             else Err(UnclosedGroup))
      case '[' => (match ParseClass(rest) case Err(e) => Err(e) case Ok((members, after)) => Ok((Class(members), after)))
      case ')' => Err(UnmatchedParenthesis)
      case ']' => Err(UnmatchedClass)
      case '?' => Err(DanglingQuantifier)
      case '*' => Err(DanglingQuantifier)
      case '+' => Err(DanglingQuantifier)
      case c => if IsReserved(c) then Err(Reserved(c)) else Ok((Literal(c), rest))
  }

  function ParseRepetitions(input: string, closing: Option<char>, depth: nat, dialect: Dialect)
    : (r: Parsed<seq<Repetition>>)
    ensures r.Ok? ==> |r.value.1| <= |input| && GoodRepetitions(r.value.0, depth)
    decreases |input|, 1
  {
    if SequenceEnds(input, closing) then Ok(([], input))
    else
      match ParseAtom(input, depth, dialect)
      case Err(e) => Err(e)
      case Ok((atom, after)) =>
        var (quantifier, rest) := ParseQuantifier(after);
        Cons(Repetition(atom, quantifier), ParseRepetitions(rest, closing, depth, dialect))
  }

  function ParseAlternatives(input: string, closing: Option<char>, depth: nat, dialect: Dialect)
    : (r: Parsed<seq<Sequence>>)
    ensures r.Ok? ==> |r.value.1| <= |input| && r.value.0 != [] && GoodAlternatives(r.value.0, depth)
    decreases |input|, 2
  {
    match ParseRepetitions(input, closing, depth, dialect)
    case Err(e) => Err(e)
    case Ok((repetitions, rest)) =>
      if AtAlternation(rest) then
        Cons(Sequence(repetitions), ParseAlternatives(rest[1..], closing, depth, dialect))
      else Ok(([Sequence(repetitions)], rest))
  }

  /** Reads a whole text, without a byte limit. */
  function ParseText(text: string, dialect: Dialect): (r: Result<Pattern, PatternError>)
    ensures r.Ok? ==> Good(r.value)
  {
    match ParseAlternatives(text, None, 0, dialect)
    case Err(e) => Err(e)
    case Ok((alternatives, rest)) => if rest == [] then Ok(Pattern(alternatives)) else Err(UnexpectedClosing)
  }

  function Utf8Bytes(text: string): nat {
    if text == [] then 0
    else
      var c := text[0] as int;
      (if c < 0x80 then 1 else if c < 0x800 then 2 else if c < 0x1_0000 then 3 else 4) + Utf8Bytes(text[1..])
  }

  /** The patterns Glam accepts. */
  function Parse(source: string): Result<Pattern, PatternError> {
    if Utf8Bytes(source) > MAX_PATTERN_BYTES then Err(TooManyBytes) else ParseText(source, Glam)
  }

  // ---- Emission is undone by the grammar ----

  lemma Front<T>(a: seq<T>, b: seq<T>)
    requires a != []
    ensures (a + b)[0] == a[0] && (a + b)[1..] == a[1..] + b
  {
  }

  lemma Wrapped<T>(open: seq<T>, body: seq<T>, close: seq<T>, rest: seq<T>)
    ensures open + body + close + rest == open + (body + (close + rest))
  {
  }

  lemma EscapeRoundTrip(c: char, rest: string)
    requires IsEscapable(c)
    ensures ParseEscape([c] + rest) == Ok((c, rest))
  {
    Front([c], rest);
  }

  lemma ClassScalarRoundTrip(c: char, rest: string)
    ensures ParseClassScalar(EmitClassLiteral(c) + rest) == Ok((c, rest))
  {
    Front(EmitClassLiteral(c), rest);
    if NeedsClassEscape(c) {
      assert EmitClassLiteral(c)[1..] == [c];
      EscapeRoundTrip(c, rest);
    }
  }

  /** An emitted class literal never opens with a scalar that means something else. */
  lemma ClassLiteralStart(c: char, rest: string)
    ensures (EmitClassLiteral(c) + rest)[0] !in ['-', ']', '^']
  {
  }

  lemma MemberRoundTrip(member: ClassMember, rest: string)
    requires GoodMember(member) && |rest| > 0 && rest[0] != '-'
    ensures ParseMember(EmitMember(member) + rest) == Ok((member, rest))
    ensures (EmitMember(member) + rest)[0] !in ['-', ']', '^']
  {
    match member
    case Scalar(c) =>
      ClassScalarRoundTrip(c, rest);
    case Range(start, end) =>
      var tail := "-" + (EmitClassLiteral(end) + rest);
      assert EmitMember(member) + rest == EmitClassLiteral(start) + tail;
      ClassScalarRoundTrip(start, tail);
      ClassScalarRoundTrip(end, rest);
      ClassLiteralStart(end, rest);
      assert tail[1..] == EmitClassLiteral(end) + rest;
  }

  lemma MembersStep(text: string, member: ClassMember, tail: string)
    requires |text| > 0 && text[0] !in ['-', ']'] && ParseMember(text) == Ok((member, tail))
    ensures ParseMembers(text) == Cons(member, ParseMembers(tail))
  {
  }

  lemma {:induction false} MembersRoundTrip(members: seq<ClassMember>, rest: string)
    requires GoodMembers(members)
    ensures ParseMembers(EmitMembers(members) + ("]" + rest)) == Ok((members, rest))
    ensures (EmitMembers(members) + ("]" + rest))[0] !in ['-', '^']
  {
    if members == [] {
      assert EmitMembers(members) + ("]" + rest) == "]" + rest;
      Front("]", rest);
    } else {
      var tail := EmitMembers(members[1..]) + ("]" + rest);
      MembersRoundTrip(members[1..], rest);
      MemberRoundTrip(members[0], tail);
      MembersStep(EmitMember(members[0]) + tail, members[0], tail);
      Associative(EmitMember(members[0]), EmitMembers(members[1..]), "]" + rest);
      assert [members[0]] + members[1..] == members;
    }
  }

  lemma ClassRoundTrip(members: seq<ClassMember>, rest: string)
    requires members != [] && GoodMembers(members)
    ensures ParseClass(EmitMembers(members) + ("]" + rest)) == Ok((members, rest))
  {
    MembersRoundTrip(members, rest);
  }

  /** An emitted atom opens with a scalar that neither ends a sequence nor quantifies. */
  lemma AtomStart(atom: Atom, dialect: Dialect, rest: string)
    ensures EmitAtom(atom, dialect) != []
    ensures (EmitAtom(atom, dialect) + rest)[0] !in ['|', ')', '?', '*', '+']
  {
  }

  lemma LiteralRoundTrip(c: char, depth: nat, dialect: Dialect, rest: string)
    ensures !AtAlternation(EmitLiteral(c) + rest)
    ensures ParseAtom(EmitLiteral(c) + rest, depth, dialect) == Ok((Literal(c), rest))
  {
    Front(EmitLiteral(c), rest);
    if NeedsEscape(c) {
      assert EmitLiteral(c)[1..] == [c];
      EscapeRoundTrip(c, rest);
    } else {
      assert EmitLiteral(c)[1..] == [];
      assert [] + rest == rest;
    }
  }

  lemma {:induction false} AtomRoundTrip(atom: Atom, depth: nat, dialect: Dialect, rest: string)
    requires GoodAtom(atom, depth)
    ensures !AtAlternation(EmitAtom(atom, dialect) + rest)
    ensures ParseAtom(EmitAtom(atom, dialect) + rest, depth, dialect) == Ok((atom, rest))
    decreases atom
  {
    AtomStart(atom, dialect, rest);
    match atom
    case Literal(c) => LiteralRoundTrip(c, depth, dialect, rest);
    case Any => Front(".", rest);
    case Class(members) =>
      ClassRoundTrip(members, rest);
      ClassStep(members, depth, dialect, rest);
    case Group(pattern) =>
      AlternativesRoundTrip(pattern.alternatives, Some(')'), depth + 1, dialect, ")" + rest);
      GroupStep(pattern, depth, dialect, rest);
  }

  lemma ClassStep(members: seq<ClassMember>, depth: nat, dialect: Dialect, rest: string)
    requires ParseClass(EmitMembers(members) + ("]" + rest)) == Ok((members, rest))
    ensures !AtAlternation(EmitAtom(Class(members), dialect) + rest)
    ensures ParseAtom(EmitAtom(Class(members), dialect) + rest, depth, dialect) == Ok((Class(members), rest))
  {
    var body := EmitMembers(members) + ("]" + rest);
    Wrapped("[", EmitMembers(members), "]", rest);
    Front("[", body);
  }

  lemma GroupStep(pattern: Pattern, depth: nat, dialect: Dialect, rest: string)
    requires depth < MAX_PATTERN_GROUP_DEPTH
    requires ParseAlternatives(Emit(pattern, dialect) + (")" + rest), Some(')'), depth + 1, dialect)
             == Ok((pattern.alternatives, ")" + rest))
    ensures !AtAlternation(EmitAtom(Group(pattern), dialect) + rest)
    ensures ParseAtom(EmitAtom(Group(pattern), dialect) + rest, depth, dialect) == Ok((Group(pattern), rest))
  {
    var body := Emit(pattern, dialect) + (")" + rest);
    Wrapped(Opener(dialect), Emit(pattern, dialect), ")", rest);
    GroupOpens(dialect, body);
    Front(")", rest);
  }

  lemma GroupOpens(dialect: Dialect, body: string)
    ensures var text := Opener(dialect) + body;
            && text[0] == '('
            && (if dialect.Backend? then "?:" <= text[1..] && text[1..][2..] == body else text[1..] == body)
  {
  }

  lemma QuantifierRoundTrip(quantifier: Quantifier, rest: string)
    requires rest == [] || rest[0] !in ['?', '*', '+']
    ensures ParseQuantifier(EmitQuantifier(quantifier) + rest) == (quantifier, rest)
  {
    if quantifier == One {
      assert "" + rest == rest;
    } else {
      Front(EmitQuantifier(quantifier), rest);
    }
  }

  lemma RepetitionsStep(text: string, closing: Option<char>, depth: nat, dialect: Dialect, r: Repetition,
                        after: string, tail: string)
    requires !SequenceEnds(text, closing) && ParseAtom(text, depth, dialect) == Ok((r.atom, after))
    requires ParseQuantifier(after) == (r.quantifier, tail)
    ensures ParseRepetitions(text, closing, depth, dialect)
            == Cons(r, ParseRepetitions(tail, closing, depth, dialect))
  {
  }

  /** One emitted repetition is read back, whatever well-formed text follows it. */
  lemma {:induction false} RepetitionRoundTrip(r: Repetition, closing: Option<char>, depth: nat, dialect: Dialect,
                                               tail: string)
    requires GoodRepetition(r, depth) && (tail == [] || tail[0] !in ['?', '*', '+'])
    requires closing == None || closing == Some(')')
    ensures ParseRepetitions(EmitRepetition(r, dialect) + tail, closing, depth, dialect)
            == Cons(r, ParseRepetitions(tail, closing, depth, dialect))
    ensures (EmitRepetition(r, dialect) + tail) != []
    ensures (EmitRepetition(r, dialect) + tail)[0] !in ['?', '*', '+']
    decreases r
  {
    var after := EmitQuantifier(r.quantifier) + tail;
    Associative(EmitAtom(r.atom, dialect), EmitQuantifier(r.quantifier), tail);
    QuantifierRoundTrip(r.quantifier, tail);
    AtomRoundTrip(r.atom, depth, dialect, after);
    AtomStart(r.atom, dialect, after);
    RepetitionsStep(EmitAtom(r.atom, dialect) + after, closing, depth, dialect, r, after, tail);
  }

  lemma {:induction false} RepetitionsRoundTrip(repetitions: seq<Repetition>, closing: Option<char>, depth: nat,
                                                dialect: Dialect, rest: string)
    requires GoodRepetitions(repetitions, depth) && SequenceEnds(rest, closing)
    requires closing == None || closing == Some(')')
    ensures ParseRepetitions(EmitRepetitions(repetitions, dialect) + rest, closing, depth, dialect)
            == Ok((repetitions, rest))
    ensures var text := EmitRepetitions(repetitions, dialect) + rest;
            text == [] || text[0] !in ['?', '*', '+']
    decreases repetitions
  {
    var text := EmitRepetitions(repetitions, dialect) + rest;
    if repetitions == [] {
      assert text == rest;
    } else {
      var tail := EmitRepetitions(repetitions[1..], dialect) + rest;
      RepetitionsRoundTrip(repetitions[1..], closing, depth, dialect, rest);
      RepetitionRoundTrip(repetitions[0], closing, depth, dialect, tail);
      Associative(EmitRepetition(repetitions[0], dialect), EmitRepetitions(repetitions[1..], dialect), rest);
      assert [repetitions[0]] + repetitions[1..] == repetitions;
    }
  }

  lemma AlternativesLast(text: string, closing: Option<char>, depth: nat, dialect: Dialect,
                         repetitions: seq<Repetition>, rest: string)
    requires ParseRepetitions(text, closing, depth, dialect) == Ok((repetitions, rest)) && !AtAlternation(rest)
    ensures ParseAlternatives(text, closing, depth, dialect) == Ok(([Sequence(repetitions)], rest))
  {
  }

  lemma AlternativesStep(text: string, closing: Option<char>, depth: nat, dialect: Dialect,
                         repetitions: seq<Repetition>, tail: string)
    requires ParseRepetitions(text, closing, depth, dialect) == Ok((repetitions, "|" + tail))
    ensures |text| > |tail|
    ensures ParseAlternatives(text, closing, depth, dialect)
            == Cons(Sequence(repetitions), ParseAlternatives(tail, closing, depth, dialect))
  {
    Front("|", tail);
  }

  lemma {:induction false} AlternativesRoundTrip(alternatives: seq<Sequence>, closing: Option<char>, depth: nat,
                                                 dialect: Dialect, rest: string)
    requires alternatives != [] && GoodAlternatives(alternatives, depth)
    requires closing == None || closing == Some(')')
    requires rest == [] || closing == Some(rest[0])
    ensures ParseAlternatives(EmitAlternatives(alternatives, dialect) + rest, closing, depth, dialect)
            == Ok((alternatives, rest))
    decreases alternatives
  {
    var text := EmitAlternatives(alternatives, dialect) + rest;
    var first := alternatives[0].repetitions;
    if |alternatives| == 1 {
      RepetitionsRoundTrip(first, closing, depth, dialect, rest);
      AlternativesLast(text, closing, depth, dialect, first, rest);
      assert alternatives == [alternatives[0]];
    } else {
      var tail := EmitAlternatives(alternatives[1..], dialect) + rest;
      AlternativesRoundTrip(alternatives[1..], closing, depth, dialect, rest);
      RepetitionsRoundTrip(first, closing, depth, dialect, "|" + tail);
      Wrapped(EmitRepetitions(first, dialect), "|", EmitAlternatives(alternatives[1..], dialect), rest);
      AlternativesStep(text, closing, depth, dialect, first, tail);
      assert [Sequence(first)] + alternatives[1..] == alternatives;
    }
  }

  /** Reading an emitted tree in its own dialect gives the tree back. */
  lemma EmitParses(pattern: Pattern, dialect: Dialect)
    requires Good(pattern)
    ensures ParseText(Emit(pattern, dialect), dialect) == Ok(pattern)
  {
    AlternativesRoundTrip(pattern.alternatives, None, 0, dialect, []);
    assert Emit(pattern, dialect) + [] == Emit(pattern, dialect);
  }

  /** For every accepted source, the backend text denotes the very tree that was parsed. */
  lemma BackendKeepsTree(source: string)
    requires Parse(source).Ok?
    ensures ParseText(Emit(Parse(source).value, Backend), Backend) == Parse(source)
    ensures ParseText(Emit(Parse(source).value, Glam), Glam) == Parse(source)
  {
    EmitParses(Parse(source).value, Backend);
    EmitParses(Parse(source).value, Glam);
  }

  /** Two accepted sources reach the same backend text only with the same tree. */
  lemma BackendIsInjective(a: string, b: string)
    requires Parse(a).Ok? && Parse(b).Ok?
    requires Emit(Parse(a).value, Backend) == Emit(Parse(b).value, Backend)
    ensures Parse(a) == Parse(b)
  {
    BackendKeepsTree(a);
    BackendKeepsTree(b);
  }
}
