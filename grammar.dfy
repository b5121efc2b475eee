/** The command grammar: a line is split at its first space into a command
    name and an argument payload, the name is looked up in a fixed ordered
    table, and the command is mapped to the result the event loop acts on.
    Everything here is a pure function of the line and the table. */
module Grammar {
  import opened Bytes

  datatype CommandType = Nick | Join | Leave | Msg | Quit | Invalid

  /** What the event loop is told to do after one line. */
  datatype CommandResult = Ok | Disconnect

  datatype CommandSpec = CommandSpec(name: string, kind: CommandType)

  /** The fixed, ordered command table; names are matched case-sensitively. */
  const CommandTable: seq<CommandSpec> := [
    CommandSpec("NICK", Nick),
    CommandSpec("JOIN", Join),
    CommandSpec("LEAVE", Leave),
    CommandSpec("MSG", Msg),
    CommandSpec("QUIT", Quit)
  ]

  /** The result pair of parsing: `args == None` stands for the null
      argument pointer (with length 0), `Some(a)` for the bytes after the
      first space, possibly none of them. */
  datatype Parsed = Parsed(kind: CommandType, args: Option<string>)

  predicate Recognized(name: string) {
    exists i :: 0 <= i < |CommandTable| && CommandTable[i].name == name
  }

  /** The command token: the bytes before the first space, or the whole
      line when it has no space. */
  function CommandName(line: string): (name: string)
    ensures ' ' !in name && name <= line
    ensures |name| < |line| ==> line[|name|] == ' '
    ensures |name| == |line| <==> ' ' !in line
  {
    match FindByte(line, ' ')
    case None => line
    case Some(k) => line[..k]
  }

  /** First-match search of the table from position `from` on, comparing
      length and bytes exactly. */
  function Lookup(name: string, from: nat): (kind: CommandType)
    requires from <= |CommandTable|
    ensures kind == Invalid <==> forall i :: from <= i < |CommandTable| ==> CommandTable[i].name != name
    ensures kind != Invalid ==>
      exists i :: from <= i < |CommandTable| && CommandTable[i] == CommandSpec(name, kind) &&
        forall j :: from <= j < i ==> CommandTable[j].name != name
    decreases |CommandTable| - from
  {
    if from == |CommandTable| then Invalid
    else if |CommandTable[from].name| == |name| && CommandTable[from].name == name then CommandTable[from].kind
    else Lookup(name, from + 1)
  }

  /** Splits the line at its first space and resolves the name. */
  function ParseCommand(line: string): (p: Parsed)
    ensures p.kind != Invalid <==> Recognized(CommandName(line))
    ensures p.kind != Invalid ==> exists i :: 0 <= i < |CommandTable| && CommandTable[i] == CommandSpec(CommandName(line), p.kind)
    ensures p.args.Some? <==> p.kind != Invalid && ' ' in line
    ensures p.args.Some? ==> line == CommandName(line) + " " + p.args.value
  {
    var space := FindByte(line, ' ');
    var cmdLen := if space.Some? then space.value else |line|;
    var kind := Lookup(line[..cmdLen], 0);
    if kind != Invalid && space.Some? then
      assert line == line[..cmdLen] + " " + line[cmdLen + 1..];
      Parsed(kind, Some(line[cmdLen + 1..]))
    else Parsed(kind, None)
  }

  /** Dispatch: NICK, JOIN, LEAVE and MSG run their (empty) handlers and
      yield `Ok`; QUIT and every unrecognised name share one branch and
      yield `Disconnect`. */
  function HandleCommand(line: string): (r: CommandResult)
    ensures r == Disconnect <==> CommandName(line) == "QUIT" || !Recognized(CommandName(line))
  {
    var p := ParseCommand(line);
    QuitEntry(CommandName(line), p.kind);
    match p.kind
    case Nick => Ok
    case Join => Ok
    case Leave => Ok
    case Msg => Ok
    case Quit => Disconnect
    case Invalid => Disconnect
  }

  /** The only table entry of type `Quit` is the one named "QUIT". */
  lemma QuitEntry(name: string, kind: CommandType)
    requires kind != Invalid ==> exists i :: 0 <= i < |CommandTable| && CommandTable[i] == CommandSpec(name, kind)
    requires kind != Invalid <==> Recognized(name)
    ensures kind == Quit <==> name == "QUIT"
  {
    if name == "QUIT" {
      assert CommandTable[4].name == name;
    }
  }

  /** The table's names are pairwise distinct and contain no space, and
      no entry carries the `Invalid` type, so first-match is well defined. */
  lemma TableWellFormed()
    ensures forall i, j :: 0 <= i < j < |CommandTable| ==>
      CommandTable[i].name != CommandTable[j].name && CommandTable[i].kind != CommandTable[j].kind
    ensures forall i :: 0 <= i < |CommandTable| ==> ' ' !in CommandTable[i].name && CommandTable[i].kind != Invalid
  {
  }

  /** Writing a table name, optionally followed by a space and any payload,
      parses back to that entry's type and exactly that payload. */
  lemma {:induction false} ParseRoundTrip(i: nat, args: string)
    requires i < |CommandTable|
    ensures ParseCommand(CommandTable[i].name + " " + args) == Parsed(CommandTable[i].kind, Some(args))
    ensures ParseCommand(CommandTable[i].name) == Parsed(CommandTable[i].kind, None)
  {
    TableWellFormed();
    var name := CommandTable[i].name;
    FindByteAfter(name, ' ', args);
    assert name + " " + args == name + [' '] + args;
    assert (name + " " + args)[..|name|] == name;
    assert (name + " " + args)[|name| + 1..] == args;
  }

  /** Matching is exact and case-sensitive: a lower-case or lengthened
      name is not a command. */
  lemma CaseSensitive()
    ensures ParseCommand("nick").kind == Invalid
    ensures ParseCommand("NICKX").kind == Invalid
  {
    assert ' ' !in "nick" && ' ' !in "NICKX";
    assert !Recognized("nick") && !Recognized("NICKX");
  }

  /** The empty line (a bare "\n" or "\r\n") is unrecognised and disconnects. */
  lemma EmptyLineDisconnects()
    ensures HandleCommand("") == Disconnect
  {
    assert !Recognized("");
  }
}
