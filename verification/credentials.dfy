/** The credential table (AuthManager::loadUsers and userExists): a text
    file of `login:password` lines read with std::getline. */
module Credentials {
  import opened Wrappers
  import opened Sequences

  /** login -> password, as kept in the std::unordered_map users_. */
  type UserTable = map<string, string>

  datatype Credential = Credential(login: string, password: string)

  /** Outcome of loadUsers: whether the file opened, and the table after. */
  datatype LoadResult = LoadResult(ok: bool, table: UserTable)

  /** The file text as getline's loop sees it: every line ends in a newline
      (a final line without one is read all the same). */
  function Terminated(content: string): string
  {
    if |content| == 0 || content[|content| - 1] == '\n' then content else content + "\n"
  }

  /** Lines written back out, each followed by a newline. */
  function JoinLines(lines: seq<string>): string
  {
    if |lines| == 0 then "" else lines[0] + "\n" + JoinLines(lines[1..])
  }

  predicate NoNewline(lines: seq<string>)
  {
    forall i :: 0 <= i < |lines| ==> '\n' !in lines[i]
  }

  /** The lines `while (std::getline(file, line))` yields: split at every
      newline, the newline dropped, no empty line after a final newline. */
  function SplitLines(content: string): (lines: seq<string>)
    ensures NoNewline(lines)
    ensures |lines| == 0 <==> |content| == 0
    decreases |content|
  {
    if |content| == 0 then []
    else match IndexOf(content, '\n')
      case None => [content]
      case Some(i) => [content[..i]] + SplitLines(content[i + 1..])
  }

  /** The lines, each written back with its newline, are the whole file. */
  lemma {:induction false} JoinSplit(content: string)
    ensures JoinLines(SplitLines(content)) == Terminated(content)
    decreases |content|
  {
    if |content| > 0 {
      var r := IndexOf(content, '\n');
      if r.None? {
        assert SplitLines(content) == [content];
        assert JoinLines([content]) == content + "\n" + JoinLines([]);
      } else {
        var i := r.value;
        var head, rest := content[..i], content[i + 1..];
        SplitLinesUnfold(content, i);
        JoinSplit(rest);
        JoinCons(head, SplitLines(rest));
        TerminatedCons(head, rest);
      }
    }
  }

  lemma SplitLinesUnfold(content: string, i: nat)
    requires IndexOf(content, '\n') == Some(i)
    ensures content == content[..i] + "\n" + content[i + 1..]
    ensures SplitLines(content) == [content[..i]] + SplitLines(content[i + 1..])
  {
    SplitAround(content, i);
  }

  lemma JoinCons(line: string, lines: seq<string>)
    ensures JoinLines([line] + lines) == line + "\n" + JoinLines(lines)
  {
    assert ([line] + lines)[1..] == lines;
  }

  /** Terminating the text after a newline terminates the whole text. */
  lemma TerminatedCons(head: string, rest: string)
    ensures head + "\n" + Terminated(rest) == Terminated(head + "\n" + rest)
  {
    var content := head + "\n" + rest;
    if |rest| > 0 {
      assert content[|content| - 1] == rest[|rest| - 1];
      if rest[|rest| - 1] != '\n' {
        assert head + "\n" + (rest + "\n") == content + "\n";
      }
    } else {
      assert content == head + "\n";
    }
  }

  /** Lines without newlines survive being written out and read back. */
  lemma {:induction false} SplitJoin(lines: seq<string>)
    requires NoNewline(lines)
    ensures SplitLines(JoinLines(lines)) == lines
  {
    if |lines| > 0 {
      var first, others := lines[0], lines[1..];
      assert JoinLines(lines) == first + "\n" + JoinLines(others);
      SplitLinesCons(first, JoinLines(others));
      SplitJoin(others);
      assert lines == [first] + others;
    }
  }

  /** A line without a newline, then a newline, is split off the front. */
  lemma SplitLinesCons(first: string, after: string)
    requires '\n' !in first
    ensures SplitLines(first + "\n" + after) == [first] + SplitLines(after)
  {
    var content := first + "\n" + after;
    FirstNewline(first, after);
    SplitLinesUnfold(content, |first|);
    assert content[..|first|] == first;
    assert content[|first| + 1..] == after;
  }

  lemma FirstNewline(first: string, after: string)
    requires '\n' !in first
    ensures IndexOf(first + "\n" + after, '\n') == Some(|first|)
  {
    ConcatAssoc(first, "\n", after);
    IndexOfAfter(first, "\n" + after, '\n');
  }

  /** One line of the file: split at its FIRST colon, so the password may
      itself contain colons; a line without a colon is skipped. Nothing is
      trimmed and no line is treated as a comment. */
  function ParseLine(line: string): (r: Option<Credential>)
    ensures r.None? <==> ':' !in line
    ensures r.Some? ==> ':' !in r.value.login
    ensures r.Some? ==> line == r.value.login + ":" + r.value.password
  {
    match IndexOf(line, ':')
    case None => None
    case Some(pos) =>
      assert line == line[..pos] + ":" + line[pos + 1..];
      Some(Credential(line[..pos], line[pos + 1..]))
  }

  /** A colon-free login and any password come back from their line. */
  lemma ParseLineRoundTrip(c: Credential)
    requires ':' !in c.login
    ensures ParseLine(c.login + ":" + c.password) == Some(c)
  {
    var line := c.login + ":" + c.password;
    assert line[|c.login|] == ':';
    assert line[..|c.login|] == c.login;
    assert IndexOf(line, ':') == Some(|c.login|);
    assert line[|c.login| + 1..] == c.password;
  }

  /** Every line of the file, parsed; `None` marks a line without a colon. */
  function ParseLines(lines: seq<string>): (entries: seq<Option<Credential>>)
    ensures |entries| == |lines|
    ensures forall i :: 0 <= i < |lines| ==> entries[i] == ParseLine(lines[i])
  {
    seq(|lines|, i requires 0 <= i < |lines| => ParseLine(lines[i]))
  }

  predicate Defines(entry: Option<Credential>, login: string)
  {
    entry.Some? && entry.value.login == login
  }

  /** The index of the last entry that defines `login`, searched from the
      end of the file. */
  function LastDefinition(entries: seq<Option<Credential>>, login: string): (r: Option<nat>)
    ensures r.None? <==> forall j :: 0 <= j < |entries| ==> !Defines(entries[j], login)
    ensures r.Some? ==> r.value < |entries| && Defines(entries[r.value], login)
    ensures r.Some? ==> forall j :: r.value < j < |entries| ==> !Defines(entries[j], login)
  {
    if |entries| == 0 then None
    else if Defines(entries[|entries| - 1], login) then Some(|entries| - 1)
    else
      var prefix := entries[..|entries| - 1];
      assert forall j :: 0 <= j < |prefix| ==> prefix[j] == entries[j];
      LastDefinition(prefix, login)
  }

  /** The map the parsing loop builds, one `users_[login] = password` per
      line that has a colon, in file order: on duplicate logins the last
      line wins. */
  function BuildTable(entries: seq<Option<Credential>>): (t: UserTable)
    ensures forall login :: login in t <==> LastDefinition(entries, login).Some?
    ensures forall login :: login in t ==>
              t[login] == entries[LastDefinition(entries, login).value].value.password
  {
    if |entries| == 0 then map[]
    else
      var prefix := entries[..|entries| - 1];
      var t := BuildTable(prefix);
      assert forall j :: 0 <= j < |prefix| ==> prefix[j] == entries[j];
      var last := entries[|entries| - 1];
      assert forall login :: LastDefinition(entries, login) == (if Defines(last, login) then Some(|entries| - 1) else LastDefinition(prefix, login));
      match last
      case None => t
      case Some(c) => t[c.login := c.password]
  }

  /** loadUsers: if the file cannot be opened nothing changes and the call
      fails; otherwise the old table is cleared and rebuilt from the file's
      lines alone. `file` is None when the file cannot be opened. */
  function LoadUsers(file: Option<string>, current: UserTable): (r: LoadResult)
    ensures r.ok <==> file.Some?
    ensures !r.ok ==> r.table == current
    ensures r.ok ==> forall login :: login in r.table <==>
              LastDefinition(ParseLines(SplitLines(file.value)), login).Some?
    ensures r.ok ==> forall login :: login in r.table ==>
              var entries := ParseLines(SplitLines(file.value));
              r.table[login] == entries[LastDefinition(entries, login).value].value.password
  {
    match file
    case None => LoadResult(false, current)
    case Some(content) => LoadResult(true, BuildTable(ParseLines(SplitLines(content))))
  }

  /** After a successful load the table depends on the file only. */
  lemma LoadForgetsPrevious(content: string, t1: UserTable, t2: UserTable)
    ensures LoadUsers(Some(content), t1) == LoadUsers(Some(content), t2)
  {
  }

  /** userExists: a key lookup. */
  function UserExists(table: UserTable, login: string): bool
  {
    login in table
  }

  ghost predicate SomeLineDefines(lines: seq<string>, login: string)
  {
    exists i :: 0 <= i < |lines| && Defines(ParseLine(lines[i]), login)
  }

  /** A login is in the table built from some lines iff one of them
      defines it. */
  lemma TableHasDefined(lines: seq<string>, login: string)
    ensures login in BuildTable(ParseLines(lines)) <==> SomeLineDefines(lines, login)
  {
    var entries := ParseLines(lines);
    assert forall i :: 0 <= i < |lines| ==> entries[i] == ParseLine(lines[i]);
  }

  /** A login exists after loading iff some line of the file defines it. */
  lemma UserExistsAfterLoad(content: string, current: UserTable, login: string)
    ensures UserExists(LoadUsers(Some(content), current).table, login) <==> SomeLineDefines(SplitLines(content), login)
  {
    var lines := SplitLines(content);
    assert LoadUsers(Some(content), current).table == BuildTable(ParseLines(lines));
    TableHasDefined(lines, login);
  }

  /** Line `i` defines `login` and no later line does. */
  ghost predicate LastDefiningLine(lines: seq<string>, login: string, i: nat)
  {
    && i < |lines| && Defines(ParseLine(lines[i]), login)
    && forall j :: i < j < |lines| ==> !Defines(ParseLine(lines[j]), login)
  }

  /** The last entry that defines a login gives its password in the table. */
  lemma TableHasLastPassword(entries: seq<Option<Credential>>, login: string, i: nat)
    requires i < |entries| && Defines(entries[i], login)
    requires forall j :: i < j < |entries| ==> !Defines(entries[j], login)
    ensures login in BuildTable(entries) && BuildTable(entries)[login] == entries[i].value.password
  {
    var r := LastDefinition(entries, login);
    assert r.Some?;
    assert !(r.value > i);
    assert !(r.value < i);
  }

  /** After loading, a login's password is the one on the last line that
      defines it. */
  lemma PasswordAfterLoad(content: string, current: UserTable, login: string, i: nat)
    requires LastDefiningLine(SplitLines(content), login, i)
    ensures var t := LoadUsers(Some(content), current).table;
            login in t && t[login] == ParseLine(SplitLines(content)[i]).value.password
  {
    var lines := SplitLines(content);
    var entries := ParseLines(lines);
    assert LoadUsers(Some(content), current).table == BuildTable(entries);
    assert forall j :: i < j < |entries| ==> !Defines(entries[j], login);
    TableHasLastPassword(entries, login, i);
  }
}
