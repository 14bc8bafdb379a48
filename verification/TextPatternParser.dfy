/** The cursor-driven parser and the appending emitter, proved against the grammar
    and the emission of `TextPattern`. */
module TextPatternParser {
  import opened Basics
  import opened TextPattern

  // ---- Parser ----

  class Parser {
    const scalars: string
    var cursor: nat

    ghost predicate Valid()
      reads this
    {
      cursor <= |scalars|
    }

    /** The text still to read. */
    function Rest(): string
      reads this
      requires Valid()
    {
      scalars[cursor..]
    }

    constructor (source: string)
      ensures Valid() && Rest() == source
    {
      scalars, cursor := source, 0;
    }

    function Peek(): (c: Option<char>)
      reads this
      requires Valid()
      ensures c == if Rest() == [] then None else Some(Rest()[0])
    {
      if cursor < |scalars| then Some(scalars[cursor]) else None
    }

    function PeekSecond(): (c: Option<char>)
      reads this
      requires Valid()
      ensures c == if |Rest()| < 2 then None else Some(Rest()[1])
    {
      if cursor + 1 < |scalars| then Some(scalars[cursor + 1]) else None
    }

    /** The read went as the grammar says: the same tree and the same text left, or
        the same error. */
    ghost predicate Agrees<T>(result: Result<T, PatternError>, parsed: Parsed<T>)
      reads this
    {
      Valid() &&
      match result
      case Err(e) => parsed == Err(e)
      case Ok(value) => parsed == Ok((value, Rest()))
    }

    method Skip()
      requires Valid() && Rest() != []
      modifies this
      ensures Valid() && Rest() == old(Rest())[1..]
    {
      cursor := cursor + 1;
    }

    method ReadEscape() returns (result: Result<char, PatternError>)
      requires Valid()
      modifies this
      ensures Agrees(result, ParseEscape(old(Rest())))
    {
      var next := Peek();
      if next == None {
        return Err(DanglingEscape);
      }
      Skip();
      return if IsEscapable(next.value) then Ok(next.value) else Err(UnsupportedEscape(next.value));
    }

    method ReadClassScalar() returns (result: Result<char, PatternError>)
      requires Valid()
      modifies this
      ensures Agrees(result, ParseClassScalar(old(Rest())))
    {
      var next := Peek();
      if next == None {
        return Err(ClassScalarExpected);
      }
      Skip();
      if next.value == '\\' {
        result := ReadEscape();
      } else if next.value in ['[', ']', '-'] {
        result := Err(ClassScalarReserved(next.value));
      } else {
        result := Ok(next.value);
      }
    }

    method ReadMember() returns (result: Result<ClassMember, PatternError>)
      requires Valid()
      modifies this
      ensures Agrees(result, ParseMember(old(Rest())))
    {
      var start := ReadClassScalar();
      if start.Err? {
        return Err(start.error);
      }
      if Peek() == Some('-') && PeekSecond() != Some(']') {
        Skip();
        var end := ReadClassScalar();
        if end.Err? {
          return Err(end.error);
        }
        return if start.value > end.value then Err(ReversedRange) else Ok(Range(start.value, end.value));
      }
      return Ok(Scalar(start.value));
    }

    method ReadClass() returns (result: Result<seq<ClassMember>, PatternError>)
      requires Valid()
      modifies this
      ensures Agrees(result, ParseClass(old(Rest())))
    {
      if Peek() == Some('^') {
        return Err(NegatedClass);
      }
      var members: seq<ClassMember> := [];
      if Peek() == Some('-') {
        Skip();
        members := [Scalar('-')];
      }
      ghost var start, before := Rest(), members;
      PrependNothing(ParseMembers(start));
      while true
        invariant Valid()
        invariant PrependParsed(before, ParseMembers(start)) == PrependParsed(members, ParseMembers(Rest()))
        invariant |before| <= |members|
        decreases |Rest()|
      {
        var next := Peek();
        if next == None {
          return Err(UnclosedClass);
        }
        if next == Some(']') {
          Skip();
          assert members + [] == members;
          break;
        }
        var member;
        if next == Some('-') {
          if PeekSecond() != Some(']') {
            return Err(MisplacedDash);
          }
          Skip();
          member := Scalar('-');
        } else {
          var read := ReadMember();
          if read.Err? {
            return Err(read.error);
          }
          member := read.value;
        }
        PrependCons(members, member, ParseMembers(Rest()));
        members := members + [member];
      }
      return if members == [] then Err(EmptyClass) else Ok(members);
    }

    method ReadQuantifier() returns (quantifier: Quantifier)
      requires Valid()
      modifies this
      ensures Valid() && (quantifier, Rest()) == ParseQuantifier(old(Rest()))
    {
      match Peek()
      case None => quantifier := One;
      case Some(c) =>
        quantifier := if c == '?' then Optional
                      else if c == '*' then ZeroOrMore
                      else if c == '+' then OneOrMore
                      else One;
        if quantifier != One {
          Skip();
        }
    }

    method ReadAtom(depth: nat) returns (result: Result<Atom, PatternError>)
      requires Valid() && !AtAlternation(Rest())
      modifies this
      ensures Agrees(result, ParseAtom(old(Rest()), depth, Glam))
      decreases |Rest()|, 0
    {
      var next := Peek();
      if next == None {
        return Err(AtomExpected);
      }
      Skip();
      match next.value {
        case '\\' =>
          var escaped := ReadEscape();
          return if escaped.Ok? then Ok(Literal(escaped.value)) else Err(escaped.error);
        case '.' => return Ok(Any);
        case '(' =>
          if depth >= MAX_PATTERN_GROUP_DEPTH {
            return Err(TooDeep);
          }
          var group := ReadPattern(Some(')'), depth + 1);
          if group.Err? {
            return Err(group.error);
          }
          if Peek() != Some(')') {
            return Err(UnclosedGroup);
          }
          Skip();
          return Ok(Group(Pattern(group.value)));
        case '[' =>
          var members := ReadClass();
          return if members.Ok? then Ok(Class(members.value)) else Err(members.error);
        case ')' => return Err(UnmatchedParenthesis);
        case ']' => return Err(UnmatchedClass);
        case '?' => return Err(DanglingQuantifier);
        case '*' => return Err(DanglingQuantifier);
        case '+' => return Err(DanglingQuantifier);
        case c => return if IsReserved(c) then Err(Reserved(c)) else Ok(Literal(c));
      }
    }

    method ReadSequence(closing: Option<char>, depth: nat) returns (result: Result<seq<Repetition>, PatternError>)
      requires Valid()
      modifies this
      ensures Agrees(result, ParseRepetitions(old(Rest()), closing, depth, Glam))
      decreases |Rest()|, 1
    {
      var repetitions: seq<Repetition> := [];
      ghost var goal := ParseRepetitions(Rest(), closing, depth, Glam);
      PrependNothing(goal);
      while !SequenceEnds(Rest(), closing)
        invariant Valid() && |Rest()| <= |old(Rest())|
        invariant goal == PrependParsed(repetitions, ParseRepetitions(Rest(), closing, depth, Glam))
        decreases |Rest()|
      {
        var atom := ReadAtom(depth);
        if atom.Err? {
          return Err(atom.error);
        }
        var quantifier := ReadQuantifier();
        PrependCons(repetitions, Repetition(atom.value, quantifier), ParseRepetitions(Rest(), closing, depth, Glam));
        repetitions := repetitions + [Repetition(atom.value, quantifier)];
      }
      assert repetitions + [] == repetitions;
      return Ok(repetitions);
    }

    method ReadPattern(closing: Option<char>, depth: nat) returns (result: Result<seq<Sequence>, PatternError>)
      requires Valid()
      modifies this
      ensures Agrees(result, ParseAlternatives(old(Rest()), closing, depth, Glam))
      decreases |Rest()|, 2
    {
      ghost var goal := ParseAlternatives(Rest(), closing, depth, Glam);
      PrependNothing(goal);
      var first := ReadSequence(closing, depth);
      if first.Err? {
        return Err(first.error);
      }
      var alternatives := [Sequence(first.value)];
      while Peek() == Some('|')
        invariant Valid() && |Rest()| <= |old(Rest())|
        invariant goal == if AtAlternation(Rest())
                          then PrependParsed(alternatives, ParseAlternatives(Rest()[1..], closing, depth, Glam))
                          else Ok((alternatives, Rest()))
        decreases |Rest()|
      {
        Skip();
        var next := ReadSequence(closing, depth);
        if next.Err? {
          return Err(next.error);
        }
        if AtAlternation(Rest()) {
          PrependCons(alternatives, Sequence(next.value), ParseAlternatives(Rest()[1..], closing, depth, Glam));
        }
        alternatives := alternatives + [Sequence(next.value)];
      }
      return Ok(alternatives);
    }
  }

  /** Parses a source text, within the byte limit. */
  method ParseSource(source: string) returns (result: Result<Pattern, PatternError>)
    ensures result == Parse(source)
  {
    if Utf8Bytes(source) > MAX_PATTERN_BYTES {
      return Err(TooManyBytes);
    }
    var parser := new Parser(source);
    var pattern := parser.ReadPattern(None, 0);
    if pattern.Err? {
      return Err(pattern.error);
    }
    return if parser.Peek().Some? then Err(UnexpectedClosing) else Ok(Pattern(pattern.value));
  }

  // ---- Emitter ----

  lemma Written(output: string, piece: string, rest: string, goal: string)
    requires output + (piece + rest) == goal
    ensures output + piece + rest == goal
  {
    Associative(output, piece, rest);
  }

  method WriteMember(member: ClassMember, output: string) returns (output': string)
    ensures output' == output + EmitMember(member)
  {
    match member
    case Scalar(c) => output' := output + EmitClassLiteral(c);
    case Range(start, end) =>
      output' := output + EmitClassLiteral(start);
      output' := output' + "-";
      output' := output' + EmitClassLiteral(end);
      assert output' == output + (EmitClassLiteral(start) + "-" + EmitClassLiteral(end));
  }

  method WriteMembers(members: seq<ClassMember>, output: string) returns (output': string)
    ensures output' == output + EmitMembers(members)
  {
    output' := output;
    for i := 0 to |members|
      invariant output' + EmitMembers(members[i..]) == output + EmitMembers(members)
    {
      assert members[i..][1..] == members[i + 1..];
      Written(output', EmitMember(members[i]), EmitMembers(members[i + 1..]), output + EmitMembers(members));
      output' := WriteMember(members[i], output');
    }
    assert members[|members|..] == [] && output' + "" == output';
  }

  method WriteAtom(atom: Atom, output: string) returns (output': string)
    ensures output' == output + EmitAtom(atom, Backend)
    decreases atom
  {
    match atom
    case Literal(c) => output' := output + EmitLiteral(c);
    case Any => output' := output + ".";
    case Class(members) =>
      output' := output + "[";
      output' := WriteMembers(members, output');
      output' := output' + "]";
    case Group(pattern) =>
      output' := output + "(?:";
      output' := WritePattern(pattern.alternatives, output');
      output' := output' + ")";
  }

  method WriteRepetition(repetition: Repetition, output: string) returns (output': string)
    ensures output' == output + EmitRepetition(repetition, Backend)
    decreases repetition
  {
    output' := WriteAtom(repetition.atom, output);
    output' := output' + EmitQuantifier(repetition.quantifier);
  }

  method WriteSequence(repetitions: seq<Repetition>, output: string) returns (output': string)
    ensures output' == output + EmitRepetitions(repetitions, Backend)
    decreases repetitions
  {
    output' := output;
    for i := 0 to |repetitions|
      invariant output' + EmitRepetitions(repetitions[i..], Backend)
                == output + EmitRepetitions(repetitions, Backend)
    {
      assert repetitions[i..][1..] == repetitions[i + 1..];
      Written(output', EmitRepetition(repetitions[i], Backend), EmitRepetitions(repetitions[i + 1..], Backend),
              output + EmitRepetitions(repetitions, Backend));
      output' := WriteRepetition(repetitions[i], output');
    }
  }

  /** Appends the backend spelling of a pattern. */
  method WritePattern(alternatives: seq<Sequence>, output: string) returns (output': string)
    ensures output' == output + EmitAlternatives(alternatives, Backend)
    decreases alternatives
  {
    output' := output;
    for i := 0 to |alternatives|
      invariant output' + Remaining(alternatives, i) == output + EmitAlternatives(alternatives, Backend)
    {
      RemainingStep(alternatives, i);
      ghost var goal := output + EmitAlternatives(alternatives, Backend);
      if i != 0 {
        Written(output', "|", EmitAlternatives(alternatives[i..], Backend), goal);
        output' := output' + "|";
      }
      Written(output', EmitRepetitions(alternatives[i].repetitions, Backend), Remaining(alternatives, i + 1), goal);
      output' := WriteSequence(alternatives[i].repetitions, output');
    }
    assert Remaining(alternatives, |alternatives|) == "" && output' + "" == output';
  }

  lemma RemainingStep(alternatives: seq<Sequence>, i: nat)
    requires i < |alternatives|
    ensures Remaining(alternatives, i) == (if i == 0 then "" else "|") + EmitAlternatives(alternatives[i..], Backend)
    ensures EmitAlternatives(alternatives[i..], Backend) ==
            EmitRepetitions(alternatives[i].repetitions, Backend) + Remaining(alternatives, i + 1)
    ensures i == 0 ==> Remaining(alternatives, i) == EmitAlternatives(alternatives[i..], Backend)
  {
    assert alternatives[i..][1..] == alternatives[i + 1..];
    var first, rest := EmitRepetitions(alternatives[i].repetitions, Backend), EmitAlternatives(alternatives[i + 1..], Backend);
    assert first + "|" + rest == first + ("|" + rest);
    assert first + "" == first;
    assert "" + EmitAlternatives(alternatives[i..], Backend) == EmitAlternatives(alternatives[i..], Backend);
  }

  /** What is still to write from the i-th alternative on, its separator included. */
  ghost function Remaining(alternatives: seq<Sequence>, i: nat): string
    requires i <= |alternatives|
  {
    (if 0 < i < |alternatives| then "|" else "") + EmitAlternatives(alternatives[i..], Backend)
  }

  /** Items read so far in front of what a recursive read returns. */
  ghost function PrependParsed<T>(items: seq<T>, tail: Parsed<seq<T>>): Parsed<seq<T>> {
    match tail
    case Err(e) => Err(e)
    case Ok((more, rest)) => Ok((items + more, rest))
  }

  lemma PrependNothing<T>(tail: Parsed<seq<T>>)
    ensures PrependParsed([], tail) == tail
  {
    assert tail.Ok? ==> [] + tail.value.0 == tail.value.0;
  }

  lemma PrependCons<T>(items: seq<T>, item: T, tail: Parsed<seq<T>>)
    ensures PrependParsed(items + [item], tail) == PrependParsed(items, Cons(item, tail))
  {
    if tail.Ok? {
      Associative(items, [item], tail.value.0);
    }
  }
}
