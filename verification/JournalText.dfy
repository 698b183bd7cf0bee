/** The journal as text: the lines that `journal_write` writes, and what `journal_replay` reads back through a buffer
    of CMD_MAX characters (rrd_daemon.c). */
module JournalText {
  import opened Wire

  // ----- reading

  /** How much one `fgets` takes: up to the first newline and with it, but less than the buffer holds. */
  function Taken(text: string): (n: nat)
    ensures n <= |text| && n < CMD_MAX && (text != "" ==> n > 0)
  {
    if Eol(text) + 1 < CMD_MAX then (if Eol(text) < |text| then Eol(text) + 1 else |text|)
    else CMD_MAX - 1
  }

  /** What was read ends in a newline; a NUL in front of it hides the newline from `strlen`. */
  predicate Complete(line: string) {
    line != "" && line[|line| - 1] == '\n' && '\0' !in line
  }

  /** The entries handed to `handle_request`, without their newlines. */
  function Entries(text: string): seq<string>
    decreases |text|
  {
    if text == "" then []
    else
      var line := text[..Taken(text)];
      (if Complete(line) then [line[..|line| - 1]] else []) + Entries(text[Taken(text)..])
  }

  /** `fgets`: `at` is the position in the file, `n` the new one. */
  method Fgets(file: string, at: nat) returns (n: nat)
    requires at <= |file|
    ensures n == at + Taken(file[at..])
  {
    n := at;
    while n < |file| && n - at < CMD_MAX - 1
      invariant at <= n <= |file| && n - at <= CMD_MAX - 1 && '\n' !in file[at..n]
    {
      assert file[at..n + 1] == file[at..n] + [file[n]];
      n := n + 1;
      if file[n - 1] == '\n' {
        EolIs(file[at..], n - 1 - at);
        return;
      }
    }
    NoNewline(file[at..], n - at);
  }

  lemma {:induction false} NoNewline(s: string, n: nat)
    requires n <= |s| && '\n' !in s[..n]
    ensures n <= Eol(s) && (n == |s| ==> Eol(s) == n)
  {
    if n > 0 {
      assert s[..n][0] == s[0] && s[1..][..n - 1] == s[..n][1..];
      NoNewline(s[1..], n - 1);
    }
  }

  /** The loop of `journal_replay`. */
  method ReadJournal(file: string) returns (entries: seq<string>)
    ensures entries == Entries(file)
  {
    hide Taken, Complete;
    entries := [];
    var at := 0;
    assert file[0..] == file;
    while at < |file|
      invariant 0 <= at <= |file| && entries + Entries(file[at..]) == Entries(file)
    {
      var next := Fgets(file, at);
      var line := file[at..next];
      assert line == file[at..][..Taken(file[at..])] && file[next..] == file[at..][Taken(file[at..])..];
      if Complete(line) {
        CompleteSome(line);
        entries := entries + [line[..|line| - 1]];
      }
      at := next;
    }
  }

  lemma CompleteSome(line: string)
    requires Complete(line)
    ensures line != ""
  {
  }

  // ----- what becomes of one line

  /** The last piece of a line that is cut every CMD_MAX - 1 characters. */
  function LastPiece(body: string): (p: string)
    ensures |p| + 1 < CMD_MAX
    decreases |body|
  {
    if |body| + 1 < CMD_MAX then body else LastPiece(body[CMD_MAX - 1..])
  }

  /** Neither newline nor NUL, as `fprintf` writes a C string that comes from one line. */
  predicate OneLine(body: string) {
    '\n' !in body && '\0' !in body
  }

  /** A written line comes back as exactly one entry: its last piece. */
  lemma {:induction false} LineEntry(body: string, rest: string)
    requires OneLine(body)
    ensures Entries(body + "\n" + rest) == [LastPiece(body)] + Entries(rest)
    decreases |body|
  {
    var text := body + "\n" + rest;
    assert text[..|body|] == body;
    EolIs(text, |body|);
    if |body| + 1 < CMD_MAX {
      assert text[..|body| + 1] == body + "\n" && text[|body| + 1..] == rest;
    } else {
      var line, more := text[..CMD_MAX - 1], body[CMD_MAX - 1..];
      assert line == body[..CMD_MAX - 1] && text[CMD_MAX - 1..] == more + "\n" + rest;
      assert line[|line| - 1] in body;
      LineEntry(more, rest);
    }
  }

  /** A line comes back as it was written exactly when the entry buffer holds it with its newline and the
      terminator. */
  lemma {:induction false} WholeIff(body: string)
    ensures LastPiece(body) == body <==> |body| + 1 < CMD_MAX
  {
  }

  lemma RestShort(body: string)
    requires CMD_MAX <= |body| + 1 <= CMD_MAX + 7
    ensures LastPiece(body) == body[CMD_MAX - 1..] && |LastPiece(body)| <= 7
  {
  }

  function Written(bodies: seq<string>): string {
    if bodies == [] then "" else bodies[0] + "\n" + Written(bodies[1..])
  }

  function LastPieces(bodies: seq<string>): seq<string> {
    if bodies == [] then [] else [LastPiece(bodies[0])] + LastPieces(bodies[1..])
  }

  /** The whole journal: one entry for each line written, in order. */
  lemma {:induction false} JournalEntries(bodies: seq<string>)
    requires forall b <- bodies :: OneLine(b)
    ensures Entries(Written(bodies)) == LastPieces(bodies)
  {
    if bodies != [] {
      assert bodies[0] in bodies;
      JournalEntries(bodies[1..]);
      LineEntry(bodies[0], Written(bodies[1..]));
    }
  }

  /** The journal is read back as written exactly when every line is shorter than CMD_MAX, newline included. */
  lemma {:induction false} JournalRoundTrip(bodies: seq<string>)
    requires forall b <- bodies :: OneLine(b)
    ensures Entries(Written(bodies)) == bodies <==> forall b <- bodies :: |b| + 1 < CMD_MAX
  {
    JournalEntries(bodies);
    WholePieces(bodies);
  }

  lemma {:induction false} WholePieces(bodies: seq<string>)
    ensures LastPieces(bodies) == bodies <==> forall b <- bodies :: |b| + 1 < CMD_MAX
  {
    if bodies != [] {
      WholeIff(bodies[0]);
      WholePieces(bodies[1..]);
      assert bodies == [bodies[0]] + bodies[1..];
    }
  }

  // ----- a journal that is cut off

  /** How many lines lie wholly in the first n characters. */
  function WholeLines(bodies: seq<string>, n: nat): (m: nat)
    ensures m <= |bodies|
  {
    if bodies == [] || |bodies[0]| + 1 > n then 0 else 1 + WholeLines(bodies[1..], n - |bodies[0]| - 1)
  }

  /** What has no newline gives no entry, however long it is. */
  lemma {:induction false} NoEntry(p: string)
    requires OneLine(p)
    ensures Entries(p) == []
    decreases |p|
  {
    if p != "" {
      assert p[..|p|] == p;
      NoNewline(p, |p|);
      var line := p[..Taken(p)];
      assert line[|line| - 1] in p;
      assert OneLine(p[Taken(p)..]) by {
        assert forall x <- p[Taken(p)..] :: x in p;
      }
      NoEntry(p[Taken(p)..]);
    }
  }

  /** A journal cut off anywhere is read back up to the last whole line: the lines in front of it give their entries, the
      begun one gives none. */
  lemma {:induction false} CutEntries(bodies: seq<string>, n: nat)
    requires n <= |Written(bodies)| && forall b <- bodies :: OneLine(b)
    ensures Entries(Written(bodies)[..n]) == LastPieces(bodies[..WholeLines(bodies, n)])
  {
    hide Entries, OneLine, LastPiece;
    if bodies != [] {
      var body, rest := bodies[0], bodies[1..];
      assert body in bodies;
      CutLine(body, Written(rest), n);
      if |body| + 1 > n {
        OneLineFront(body, n);
        NoEntry(body[..n]);
      } else {
        var m := WholeLines(rest, n - |body| - 1);
        LineEntry(body, Written(rest)[..n - |body| - 1]);
        CutEntries(rest, n - |body| - 1);
        assert bodies[..m + 1] == [body] + rest[..m];
      }
    } else {
      NothingEntered();
    }
  }

  lemma NothingEntered()
    ensures Entries("") == []
  {
  }

  lemma CutLine(body: string, rest: string, n: nat)
    requires n <= |body| + 1 + |rest|
    ensures n <= |body| ==> (body + "\n" + rest)[..n] == body[..n]
    ensures n > |body| ==> (body + "\n" + rest)[..n] == body + "\n" + rest[..n - |body| - 1]
  {
  }

  lemma OneLineFront(body: string, n: nat)
    requires OneLine(body) && n <= |body|
    ensures OneLine(body[..n])
  {
    assert forall x <- body[..n] :: x in body;
  }

  /** The number of whole lines is the largest number of lines that fit. */
  lemma {:induction false} WholeLinesFit(bodies: seq<string>, n: nat)
    ensures var m := WholeLines(bodies, n);
            |Written(bodies[..m])| <= n && (m < |bodies| ==> n < |Written(bodies[..m + 1])|)
  {
    if bodies != [] && |bodies[0]| + 1 <= n {
      var m := WholeLines(bodies[1..], n - |bodies[0]| - 1);
      WholeLinesFit(bodies[1..], n - |bodies[0]| - 1);
      assert bodies[..m + 1] == [bodies[0]] + bodies[1..][..m];
      if m < |bodies[1..]| { assert bodies[..m + 2] == [bodies[0]] + bodies[1..][..m + 1]; }
    } else if bodies != [] {
      assert bodies[..1] == [bodies[0]] + [];
      WrittenNothing();
    }
  }

  lemma WrittenNothing()
    ensures Written([]) == ""
  {
  }

  lemma {:induction false} WrittenConcat(a: seq<string>, b: seq<string>)
    ensures Written(a + b) == Written(a) + Written(b)
  {
    if a == [] {
      assert a + b == b;
    } else {
      assert (a + b)[1..] == a[1..] + b;
      WrittenConcat(a[1..], b);
    }
  }

  /** More characters and more lines never mean fewer whole lines, and all characters mean all lines. */
  lemma {:induction false} WholeLinesGrow(bodies: seq<string>, more: seq<string>, n: nat, n': nat)
    requires n <= n'
    ensures WholeLines(bodies, n) <= WholeLines(bodies + more, n')
    ensures n <= |Written(bodies)| ==> WholeLines(bodies + more, n) == WholeLines(bodies, n)
    ensures n' >= |Written(bodies)| ==> WholeLines(bodies, n') == |bodies|
  {
    if bodies != [] {
      assert (bodies + more)[1..] == bodies[1..] + more;
      if |bodies[0]| + 1 <= n {
        WholeLinesGrow(bodies[1..], more, n - |bodies[0]| - 1, n' - |bodies[0]| - 1);
      } else if |bodies[0]| + 1 <= n' {
        WholeLinesGrow(bodies[1..], more, 0, n' - |bodies[0]| - 1);
      }
    } else if more != [] && n == 0 {
      assert bodies + more == more;
    }
  }

  /** Entries of whole lines in front of anything. */
  lemma {:induction false} EntriesBehind(bodies: seq<string>, rest: string)
    requires forall b <- bodies :: OneLine(b)
    ensures Entries(Written(bodies) + rest) == LastPieces(bodies) + Entries(rest)
  {
    hide Entries, OneLine, LastPiece;
    if bodies == [] {
      assert Written(bodies) + rest == rest;
    } else {
      assert bodies[0] in bodies;
      EntriesBehind(bodies[1..], rest);
      assert Written(bodies) + rest == bodies[0] + "\n" + (Written(bodies[1..]) + rest);
      LineEntry(bodies[0], Written(bodies[1..]) + rest);
    }
  }

  // ----- what an entry does

  /** The commands that `handle_request` accepts from the journal, with what their handlers see. */
  datatype Order = UpdateOrder(args: string) | ForgetOrder(file: string) | WroteOrder(file: string) | NoOrder

  function UpperChar(c: char): char {
    if 'a' <= c <= 'z' then c - 'a' + 'A' else c
  }

  /** `strcasecmp` finds no difference. */
  predicate SameWord(s: string, word: string) {
    |s| == |word| && forall i :: 0 <= i < |s| ==> UpperChar(s[i]) == UpperChar(word[i])
  }

  /** `handle_request` in replay mode, up to the handler; FORGET decodes its file name, "wrote" takes it as it is. */
  function Dispatch(entry: string): Order {
    var d := Decode(entry + "\0");
    if d.Stuck? then NoOrder
    else
      var rest := (entry + "\0")[d.used..];
      var args := if rest == "" then "" else rest[..|rest| - 1];
      if SameWord(d.field, "UPDATE") then (if rest == "" then NoOrder else UpdateOrder(args))
      else if SameWord(d.field, "FORGET") then
        (var f := Decode(rest);
         if f.Got? then ForgetOrder(f.field) else NoOrder)
      else if SameWord(d.field, "WROTE") then WroteOrder(args)
      else NoOrder
  }

  lemma DecodeWord(word: string, args: string)
    requires ' ' !in word && '\\' !in word && '\0' !in word
    ensures Decode(word + " " + args + "\0") == Got(word, |word| + 1)
    ensures (word + " " + args + "\0")[|word| + 1..] == args + "\0"
  {
    EscapePlain(word);
    DecodeEscape(word, ' ', args + "\0");
    assert word + [' '] + (args + "\0") == word + " " + args + "\0";
  }

  lemma {:induction false} EscapePlain(s: string)
    requires ' ' !in s && '\\' !in s
    ensures Escape(s) == s
  {
    if s != "" {
      assert s[0] in s;
      assert forall x <- s[1..] :: x in s;
      EscapePlain(s[1..]);
    }
  }

  lemma DispatchUpdate(args: string)
    ensures Dispatch("update " + args) == UpdateOrder(args)
  {
    hide Decode;
    DecodeWord("update", args);
    assert "update" + " " + args == "update " + args;
    assert (args + "\0")[..|args|] == args;
  }

  lemma DispatchForget(file: string)
    ensures var d := Decode(file + "\0");
            Dispatch("forget " + file) == if d.Got? then ForgetOrder(d.field) else NoOrder
  {
    hide Decode;
    DecodeWord("forget", file);
    assert "forget" + " " + file == "forget " + file;
    assert "forget"[0] == 'f' && "UPDATE"[0] == 'U';
  }

  lemma DispatchWrote(file: string)
    ensures Dispatch("wrote " + file) == WroteOrder(file)
  {
    hide Decode;
    DecodeWord("wrote", file);
    assert "wrote" + " " + file == "wrote " + file;
    assert |"wrote"| == 5;
    assert (file + "\0")[..|file|] == file;
  }

  /** A file name that FORGET records unescaped is read back exactly if it has neither blank nor backslash. */
  lemma {:induction false} ForgetName(file: string)
    requires '\0' !in file
    ensures (Decode(file + "\0").Got? && Decode(file + "\0").field == file) <==> ' ' !in file && '\\' !in file
  {
    if ' ' !in file && '\\' !in file {
      EscapePlain(file);
      DecodeEscape(file, '\0', "");
      assert file + ['\0'] + "" == file + "\0";
    } else {
      NameChanges(file);
    }
  }

  lemma {:induction false} NameChanges(file: string)
    requires '\0' !in file && (' ' in file || '\\' in file)
    ensures Decode(file + "\0").Got? ==> Decode(file + "\0").field != file
  {
    var c := file + "\0";
    if file[0] == ' ' {
    } else if file[0] == '\\' {
      ShorterField(c);
    } else {
      assert c[1..] == file[1..] + "\0";
      NameChanges(file[1..]);
      assert file == [file[0]] + file[1..];
    }
  }

  /** An escaped character makes the field shorter than what was used for it. */
  lemma ShorterField(c: string)
    requires c != "" && c[0] == '\\'
    ensures Decode(c).Got? ==> |Decode(c).field| + 2 <= Decode(c).used
  {
  }

  /** What is left of a split line is too short for UPDATE or FORGET with a file name; "wrote" may name a file of
      one character. */
  lemma ShortEntry(entry: string)
    requires |entry| <= 7
    ensures Dispatch(entry).UpdateOrder? ==> Dispatch(entry).args == ""
    ensures Dispatch(entry).ForgetOrder? ==> Dispatch(entry).file == ""
    ensures Dispatch(entry).WroteOrder? ==> |Dispatch(entry).file| <= 1
  {
    hide UpperChar;
    var d := Decode(entry + "\0");
    if d.Got? && SameWord(d.field, "FORGET") {
      var rest := (entry + "\0")[d.used..];
      assert rest != "" ==> rest == "\0";
    }
  }

  // ----- requests of the client library

  /** An UPDATE request is journaled as it was sent. The daemon accepts every request the client can build, but reads
      its record back exactly if the request was shorter than the client's buffer. */
  lemma RequestRecord(fields: seq<string>)
    requires |fields| >= 2 && fields[0] == "update" && |Encode(fields)| <= CMD_MAX
    ensures var args := Body(fields[1..]);
            Body(fields) == "update " + args &&
            (Dispatch(LastPiece(Body(fields))) == UpdateOrder(args) <==> |Encode(fields)| < CMD_MAX)
  {
    hide *;
    var args := Body(fields[1..]);
    UpdateBody(fields);
    if |Encode(fields)| < CMD_MAX {
      WholeIff(Body(fields));
      DispatchUpdate(args);
    } else {
      FullPiece(Body(fields));
      DispatchNothing();
    }
  }

  lemma UpdateBody(fields: seq<string>)
    requires |fields| >= 2 && fields[0] == "update"
    ensures Body(fields) == "update " + Body(fields[1..]) && |Body(fields)| + 1 == |Encode(fields)|
  {
    hide Escape, Encode;
    assert fields == ["update"] + fields[1..];
    EncodeFirst("update", fields[1..]);
    EscapePlain("update");
    EncodeSome(fields[1..]);
  }

  lemma FullPiece(body: string)
    requires |body| == CMD_MAX - 1
    ensures LastPiece(body) == ""
  {
    assert body[CMD_MAX - 1..] == "";
  }

  lemma DispatchNothing()
    ensures Dispatch("") == NoOrder
  {
    assert "" + "\0" == "\0";
  }

  /** Such a request: one value of 4085 characters. It just fits the client's buffer, and is not read back. */
  lemma FullRequest()
    ensures var fields := ["update", "/a", "1:" + seq(4083, i => '1')];
            |Encode(fields)| == CMD_MAX && Dispatch(LastPiece(Body(fields))) == NoOrder
  {
    var value := "1:" + seq(4083, i => '1');
    var fields := ["update", "/a", value];
    hide *;
    PlainLengths(value);
    assert fields == ["update"] + (["/a"] + ([value] + []));
    EncodeFirst(value, []);
    EncodeFirst("/a", [value]);
    EncodeFirst("update", ["/a"] + [value]);
    EncodeNone();
    UpdateBody(fields);
    FullPiece(Body(fields));
    DispatchNothing();
  }

  lemma EncodeNone()
    ensures Encode([]) == ""
  {
  }

  lemma PlainLengths(value: string)
    requires ' ' !in value && '\\' !in value
    ensures |Escape("update")| == 6 && |Escape("/a")| == 2 && |Escape(value)| == |value|
  {
    EscapePlain("update");
    EscapePlain("/a");
    EscapePlain(value);
  }
}
