/** The REPL's meta-commands (`.exit`, `.help`, `.open`): classification of
    the typed line, its display form, and the replies of the handler. */
module Meta {
  import opened Errors
  import opened Text

  datatype MetaCommand = Exit | Help | Open(command: string) | Unknown

  /** `Display for MetaCommand`: the keyword of each command; an `Open`
      shows only its keyword, whatever line it carries. */
  function Display(m: MetaCommand): (s: string)
    ensures HasWord(s)
  {
    var s := match m
      case Exit => ".exit"
      case Help => ".help"
      case Open(_) => ".open"
      case Unknown => "Unknown command";
    assert !IsWhitespace(s[0]);
    s
  }

  /** `MetaCommand::new`: classifies by the first whitespace-separated token;
      `Open` keeps the whole line, arguments included. */
  function NewMetaCommand(command: string): (m: MetaCommand)
    requires HasWord(command)
    ensures m.Exit? <==> FirstWord(command) == ".exit"
    ensures m.Help? <==> FirstWord(command) == ".help"
    ensures m.Open? <==> FirstWord(command) == ".open"
    ensures m.Open? ==> m.command == command
  {
    match FirstWord(command)
    case ".exit" => Exit
    case ".help" => Help
    case ".open" => Open(command)
    case _ => Unknown
  }

  /** The first token of a line that starts with `word`, itself free of
      whitespace, followed by the end of the line or by whitespace. */
  lemma FirstWordOf(word: string, rest: string)
    requires word != [] && forall i :: 0 <= i < |word| ==> !IsWhitespace(word[i])
    requires rest == [] || IsWhitespace(rest[0])
    ensures HasWord(word + rest) && FirstWord(word + rest) == word
  {
    var s := word + rest;
    assert !IsWhitespace(s[0]);
    assert CountWhile(s, IsWhitespace) == 0;
    PrefixUntilAt(s, IsWhitespace, |word|);
    assert s[..|word|] == word;
  }

  /** Reading a command's display form back gives the command again, except
      that an `Open` comes back carrying only the keyword. */
  lemma DisplayRoundTrip(m: MetaCommand)
    ensures NewMetaCommand(Display(m)) == if m.Open? then Open(".open") else m
  {
    var s := Display(m);
    if m.Unknown? {
      FirstWordOf("Unknown", " command");
      assert s == "Unknown" + " command";
      assert FirstWord(s)[0] != '.';
    } else {
      FirstWordOf(s, "");
      assert s + "" == s;
    }
  }

  /** `.open` carries the line it was typed on, not just its argument. */
  lemma OpenKeepsWholeLine(argument: string)
    ensures HasWord(".open " + argument)
    ensures NewMetaCommand(".open " + argument) == Open(".open " + argument)
  {
    FirstWordOf(".open", " " + argument);
    assert ".open" + (" " + argument) == ".open " + argument;
  }

  const HelpText: string :=
    "Special commands:\n" +
    ".help            - Display this message\n" +
    ".open <FILENAME> - Close existing database and reopen FILENAME\n" +
    ".save <FILENAME> - Write in-memory database into FILENAME\n" +
    ".read <FILENAME> - Read input from FILENAME\n" +
    ".tables          - List names of tables\n" +
    ".ast <QUERY>     - Show the abstract syntax tree for QUERY.\n" +
    ".exit            - Quits this application"

  /** `handle_meta_command` for every command but `.exit`. */
  function HandleMetaCommand(m: MetaCommand): (r: Result<string>)
    requires !m.Exit?
    ensures r.Failure? <==> m.Unknown?
    ensures r.Failure? ==> r.error.Kind() == UnknownCommand
    ensures m.Help? ==> r == Success(HelpText)
    ensures m.Open? ==> r == Success("To be implemented: " + m.command)
  {
    match m
    case Help => Success(HelpText)
    case Open(args) => Success("To be implemented: " + args)
    case Unknown => Failure(UnknownMetaCommand)
  }
}
