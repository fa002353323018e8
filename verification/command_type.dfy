/** CommandType: the three task-creating command words. */
module CommandTypes {
  import opened Results
  import opened Text

  datatype CommandType = TODO | DEADLINE | EVENT

  /** The lower-case word each constant is matched against. */
  function Word(c: CommandType): string {
    match c
    case TODO => "todo"
    case DEADLINE => "deadline"
    case EVENT => "event"
  }

  /** fromString: the command lower-cased must be one of the three words;
      anything else is the IllegalArgumentException `Unknown command: <command>`. */
  function FromString(command: string): (r: Result<CommandType, string>)
    ensures r.Success? ==> ToLowerAscii(command) == Word(r.value)
    ensures r.Failure? ==> (forall c: CommandType :: ToLowerAscii(command) != Word(c))
    ensures r.Failure? ==> r.error == "Unknown command: " + command
  {
    var lower := ToLowerAscii(command);
    if lower == "todo" then Success(TODO)
    else if lower == "deadline" then Success(DEADLINE)
    else if lower == "event" then Success(EVENT)
    else Failure("Unknown command: " + command)
  }

  /** Lower-casing the input first changes nothing: matching ignores case. */
  lemma FromStringIgnoresCase(command: string)
    ensures FromString(ToLowerAscii(command)).Success? <==> FromString(command).Success?
    ensures FromString(command).Success? ==> FromString(ToLowerAscii(command)) == FromString(command)
  {
    var lower := ToLowerAscii(command);
    assert ToLowerAscii(lower) == lower;
  }

  /** A word that lower-cases to none of the three is the unknown-command error. */
  lemma FromStringUnknown(command: string)
    requires forall c: CommandType :: ToLowerAscii(command) != Word(c)
    ensures FromString(command) == Failure("Unknown command: " + command)
  {
    assert ToLowerAscii(command) != Word(TODO);
    assert ToLowerAscii(command) != Word(DEADLINE);
    assert ToLowerAscii(command) != Word(EVENT);
  }

  /** Each constant's own word maps back to it, and no two constants share a word. */
  lemma WordRoundTrip(c: CommandType, d: CommandType)
    ensures FromString(Word(c)) == Success(c)
    ensures Word(c) == Word(d) ==> c == d
  {
    var w := Word(c);
    assert ToLowerAscii(w) == w by {
      assert forall i :: 0 <= i < |w| ==> 'a' <= w[i] <= 'z' by {
        match c
        case TODO =>
        case DEADLINE =>
        case EVENT =>
      }
    }
    assert Word(c)[0] != Word(d)[0] || |Word(c)| != |Word(d)| || c == d;
  }

  /** A string that starts or ends with a character trim() would strip is no
      command word in any case. */
  lemma NotAWord(s: string)
    requires s != [] && (IsTrimmable(s[0]) || IsTrimmable(s[|s| - 1]))
    ensures forall c: CommandType :: ToLowerAscii(s) != Word(c)
  {
    var l := ToLowerAscii(s);
    assert l[0] == LowerAscii(s[0]) && l[|l| - 1] == LowerAscii(s[|s| - 1]);
    forall c: CommandType
      ensures l != Word(c)
    {
      var word := Word(c);
      assert !IsTrimmable(word[0]) && !IsTrimmable(word[|word| - 1]) by {
        match c
        case TODO =>
        case DEADLINE =>
        case EVENT =>
      }
    }
  }

  /** Surrounding whitespace is not removed: a padded word is unknown. */
  lemma FromStringPadded(w: string, command: string)
    requires w != [] && AllTrimmable(w)
    ensures FromString(w + command).Failure?
    ensures FromString(command + w).Failure?
  {
    assert (w + command)[0] == w[0];
    NotAWord(w + command);
    assert (command + w)[|command + w| - 1] == w[|w| - 1];
    NotAWord(command + w);
  }
}
