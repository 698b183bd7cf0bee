/** Requests on the wire: escaping and assembly in the client (rrd_client.c), line splitting and in-place decoding
    in the daemon (rrd_daemon.c). */
module Wire {

  const RBUF_SIZE: nat := CMD_MAX * 2
  const CMD_MAX: nat := 4096

  function EscapeChar(c: char): (r: string)
    ensures 1 <= |r| <= 2
  {
    if c == ' ' || c == '\\' then ['\\', c] else [c]
  }

  function Escape(s: string): string {
    if s == "" then "" else EscapeChar(s[0]) + Escape(s[1..])
  }

  lemma {:induction false} EscapeConcat(a: string, b: string)
    ensures Escape(a + b) == Escape(a) + Escape(b)
  {
    if a == "" {
      assert a + b == b;
    } else {
      assert (a + b)[1..] == a[1..] + b;
      EscapeConcat(a[1..], b);
    }
  }

  /** Escaping up to and including position i, and no further than the whole. */
  lemma {:induction false} EscapeNext(s: string, i: nat)
    requires i < |s|
    ensures Escape(s[..i + 1]) == Escape(s[..i]) + EscapeChar(s[i])
    ensures |Escape(s[..i + 1])| <= |Escape(s)|
  {
    assert s[..i + 1] == s[..i] + [s[i]];
    EscapeConcat(s[..i], [s[i]]);
    assert [s[i]][1..] == "";
    assert s == s[..i + 1] + s[i + 1..];
    EscapeConcat(s[..i + 1], s[i + 1..]);
  }

  /** `buffer_add_string`: succeeds exactly when the escaped string and the blank after it fit. */
  method BufferAddString(str: string, buffer: array<char>, start: nat, size: nat) returns (ok: bool, start': nat, size': nat)
    requires start + size <= buffer.Length
    modifies buffer
    ensures ok <==> |Escape(str)| + 1 <= size
    ensures ok ==> start' == start + |Escape(str)| + 1 && size' == size - |Escape(str)| - 1
    ensures ok ==> buffer[start..start'] == Escape(str) + " "
    ensures !ok ==> start' == start && size' == size
    ensures buffer[..start] == old(buffer[..start]) && buffer[start + size..] == old(buffer[start + size..])
  {
    var pos, i := 0, 0;
    ok, start', size' := false, start, size;
    assert str[..0] == "";
    while pos < size
      invariant 0 <= pos <= size && 0 <= i <= |str|
      invariant buffer[start..start + pos] == Escape(str[..i])
      invariant buffer[..start] == old(buffer[..start]) && buffer[start + size..] == old(buffer[start + size..])
    {
      if i == |str| {
        assert str[..i] == str;
        buffer[start + pos] := ' ';
        pos := pos + 1;
        assert buffer[start..start + pos] == Escape(str) + " ";
        return true, start + pos, size - pos;
      }
      EscapeNext(str, i);
      ghost var done := buffer[start..start + pos];
      if str[i] == ' ' || str[i] == '\\' {
        if pos >= size - 1 {
          return;
        }
        buffer[start + pos] := '\\';
        pos := pos + 1;
        buffer[start + pos] := str[i];
        pos := pos + 1;
      } else {
        buffer[start + pos] := str[i];
        pos := pos + 1;
      }
      assert buffer[start..start + pos] == done + EscapeChar(str[i]);
      i := i + 1;
    }
    if i < |str| {
      EscapeNext(str, i);
    } else {
      assert str[..i] == str;
    }
  }

  /** Every field escaped and followed by a blank. */
  function Encode(fields: seq<string>): string {
    if fields == [] then "" else Encode(fields[..|fields| - 1]) + Escape(fields[|fields| - 1]) + " "
  }

  lemma {:induction false} EncodeNext(fields: seq<string>, i: nat)
    requires i < |fields|
    ensures Encode(fields[..i + 1]) == Encode(fields[..i]) + Escape(fields[i]) + " "
    ensures |Encode(fields[..i])| + |Escape(fields[i])| + 1 <= |Encode(fields)|
  {
    assert fields[..i + 1][..i] == fields[..i];
    EncodeGrows(fields, i + 1);
  }

  lemma {:induction false} EncodeGrows(fields: seq<string>, i: nat)
    requires i <= |fields|
    ensures |Encode(fields[..i])| <= |Encode(fields)|
  {
    if i == |fields| {
      assert fields[..i] == fields;
    } else {
      EncodeGrows(fields[..|fields| - 1], i);
      assert fields[..|fields| - 1][..i] == fields[..i];
    }
  }

  /** A request line: the last blank becomes the newline. */
  function Request(fields: seq<string>): string {
    Body(fields) + "\n"
  }

  function Body(fields: seq<string>): string {
    if fields == [] then "" else Encode(fields)[..|Encode(fields)| - 1]
  }

  /** The buffer handling that `rrdc_update` and `rrdc_flush` share: false is ENOBUFS. */
  method Assemble(fields: seq<string>, buffer: array<char>) returns (ok: bool, size: nat)
    requires fields != []
    modifies buffer
    ensures ok <==> |Encode(fields)| <= buffer.Length
    ensures ok ==> size <= buffer.Length && buffer[..size] == Request(fields)
  {
    hide Escape;
    var pos: nat, free: nat := 0, buffer.Length;
    var i := 0;
    assert fields[..0] == [];
    while i < |fields|
      invariant 0 <= i <= |fields| && pos + free == buffer.Length
      invariant pos <= buffer.Length && pos == |Encode(fields[..i])| && buffer[..pos] == Encode(fields[..i])
    {
      EncodeNext(fields, i);
      ghost var done, old_pos := buffer[..pos], pos;
      ok, pos, free := BufferAddString(fields[i], buffer, pos, free);
      if !ok {
        return false, 0;
      }
      assert buffer[..pos] == buffer[..old_pos] + buffer[old_pos..pos];
      i := i + 1;
    }
    assert fields[..i] == fields;
    size := pos;
    assert buffer[size - 1] == buffer[..size][size - 1] == ' ';
    buffer[size - 1] := '\n';
    ok := true;
  }

  /** `buffer_add_value`: "N:" stands for the present time; the text is cut to what fits its buffer. */
  function ValueText(value: string, now: string): string {
    var text := if |value| >= 2 && value[..2] == "N:" then now + ":" + value[2..] else value;
    if |text| < CMD_MAX then text else text[..CMD_MAX - 1]
  }

  /** A value is sent as it is, with the present time in place of "N"; what does not fit the buffer is cut off behind. */
  lemma ValueTimes(value: string, now: string)
    ensures |"N:" + value| < CMD_MAX && |now + ":" + value| < CMD_MAX ==> ValueText("N:" + value, now) == now + ":" + value
    ensures |value| < CMD_MAX && !("N:" <= value) ==> ValueText(value, now) == value
    ensures |ValueText(value, now)| < CMD_MAX && !("N:" <= value) ==> ValueText(value, now) <= value
  {
    assert ("N:" + value)[..2] == "N:" && ("N:" + value)[2..] == value;
  }

  /** `rrdc_update` up to the request; the file name is what `get_path` made of it. */
  method RrdcUpdate(file: string, values: seq<string>, now: string, buffer: array<char>) returns (ok: bool, size: nat)
    requires buffer.Length == CMD_MAX
    modifies buffer
    ensures var fields := ["update", file] + seq(|values|, i requires 0 <= i < |values| => ValueText(values[i], now));
            (ok <==> |Encode(fields)| <= CMD_MAX) &&
            (ok ==> size <= CMD_MAX && buffer[..size] == Request(fields))
  {
    ok, size := Assemble(["update", file] + seq(|values|, i requires 0 <= i < |values| => ValueText(values[i], now)), buffer);
  }

  // ----- decoding

  /** What `buffer_get_field` reads from the front of a buffer, and how many characters it uses;
      it fails when the buffer ends inside the field. */
  datatype Decoded = Stuck | Got(field: string, used: nat)

  function Decode(c: string): (d: Decoded)
    ensures d.Got? ==> |d.field| < d.used <= |c|
  {
    if c == "" then Stuck
    else if c[0] == ' ' || c[0] == '\0' then Got("", 1)
    else if c[0] == '\\' then
      if |c| < 2 then Stuck
      else
        var rest := Decode(c[2..]);
        if rest.Stuck? then Stuck else Got([c[1]] + rest.field, rest.used + 2)
    else
      var rest := Decode(c[1..]);
      if rest.Stuck? then Stuck else Got([c[0]] + rest.field, rest.used + 1)
  }

  /** Having read up to `pos` and kept `field`, the whole still decodes to the field with the rest behind it. */
  ghost predicate Reading(c: string, pos: nat, field: string)
    requires pos <= |c|
  {
    var d, rest := Decode(c), Decode(c[pos..]);
    (d.Got? <==> rest.Got?) && (d.Got? ==> d.used == pos + rest.used && d.field == field + rest.field)
  }

  lemma {:induction false} ReadStart(c: string)
    ensures Reading(c, 0, "")
  {
    assert c[0..] == c;
  }

  lemma {:induction false} ReadPlain(c: string, pos: nat, field: string)
    requires pos < |c| && Reading(c, pos, field) && c[pos] != ' ' && c[pos] != '\0' && c[pos] != '\\'
    ensures Reading(c, pos + 1, field + [c[pos]])
  {
    assert c[pos..][1..] == c[pos + 1..];
  }

  lemma {:induction false} ReadEscaped(c: string, pos: nat, field: string)
    requires pos + 1 < |c| && Reading(c, pos, field) && c[pos] == '\\'
    ensures Reading(c, pos + 2, field + [c[pos + 1]])
  {
    assert c[pos..][2..] == c[pos + 2..];
  }

  lemma {:induction false} ReadEnd(c: string, pos: nat, field: string)
    requires pos < |c| && Reading(c, pos, field) && (c[pos] == ' ' || c[pos] == '\0')
    ensures Decode(c) == Got(field, pos + 1)
  {
    assert field + "" == field;
  }

  lemma {:induction false} ReadStuck(c: string, pos: nat, field: string)
    requires pos <= |c| && Reading(c, pos, field) && (pos == |c| || (c[pos] == '\\' && pos + 1 == |c|))
    ensures Decode(c).Stuck?
  {
  }

  /** The loop: the decoded characters slide to the front of the field's own space, up to a blank, a terminator, or a
      backslash with nothing behind it. */
  method ReadCharacters(buffer: array<char>, start: nat, size: nat) returns (pos: nat, len: nat, ghost field: string)
    requires start + size <= buffer.Length
    modifies buffer
    ensures len == |field| <= pos <= size && Reading(old(buffer[start..start + size]), pos, field)
    ensures forall k :: 0 <= k < len ==> buffer[start + k] == field[k]
    ensures forall k :: 0 <= k < start || start + pos <= k < buffer.Length ==> buffer[k] == old(buffer[k])
    ensures pos < size ==>
      buffer[start + pos] == ' ' || buffer[start + pos] == '\0' || (buffer[start + pos] == '\\' && pos == size - 1)
    ensures size > 0 && old(buffer[start + size - 1]) == '\0' ==> buffer[start + size - 1] == '\0'
  {
    hide Decode, Reading;
    ghost var c := buffer[start..start + size];
    ghost var terminated := size > 0 && buffer[start + size - 1] == '\0';
    field, pos, len := "", 0, 0;
    ReadStart(c);
    while pos < size && buffer[start + pos] != ' ' && buffer[start + pos] != '\0'
      invariant 0 <= len <= pos <= size && len == |field|
      invariant forall k :: 0 <= k < start || start + pos <= k < buffer.Length ==> buffer[k] == old(buffer[k])
      invariant forall k :: 0 <= k < len ==> buffer[start + k] == field[k]
      invariant Reading(c, pos, field)
      invariant terminated ==> buffer[start + size - 1] == '\0'
    {
      assert buffer[start + pos] == c[pos];
      if buffer[start + pos] == '\\' {
        if pos >= size - 1 {
          break;
        }
        ReadEscaped(c, pos, field);
        pos := pos + 1;
        assert buffer[start + pos] == c[pos];
      } else {
        ReadPlain(c, pos, field);
      }
      buffer[start + len] := buffer[start + pos];
      field, len, pos := field + [c[pos]], len + 1, pos + 1;
    }
  }

  /** Reads one field in place, and terminates it. */
  method BufferGetField(buffer: array<char>, start: nat, size: nat) returns (ok: bool, start': nat, size': nat, len: nat)
    requires start + size <= buffer.Length
    modifies buffer
    ensures var d := Decode(old(buffer[start..start + size]));
            (ok <==> d.Got?) &&
            (ok ==> start' == start + d.used && size' == size - d.used && len == |d.field| &&
                    buffer[start..start + len] == d.field && buffer[start + len] == '\0')
    ensures !ok ==> start' == start && size' == size
    ensures ok ==> forall k :: start' <= k < buffer.Length ==> buffer[k] == old(buffer[k])
    ensures forall k :: 0 <= k < start || start + size <= k < buffer.Length ==> buffer[k] == old(buffer[k])
    ensures size > 0 && old(buffer[start + size - 1]) == '\0' ==> buffer[start + size - 1] == '\0'
  {
    hide Decode, Reading;
    ghost var c := buffer[start..start + size];
    ghost var field;
    var pos;
    pos, len, field := ReadCharacters(buffer, start, size);
    assert pos < size ==> buffer[start + pos] == c[pos];
    if pos < size && buffer[start + pos] != '\\' {
      ReadEnd(c, pos, field);
      buffer[start + len] := '\0';
      return true, start + pos + 1, size - pos - 1, len;
    }
    ReadStuck(c, pos, field);
    return false, start, size, len;
  }

  /** Field after field until the buffer is used up or a field cannot be read. */
  function DecodeAll(c: string): seq<string>
    decreases |c|
  {
    if c == "" then []
    else match Decode(c)
         case Stuck => []
         case Got(field, used) => [field] + DecodeAll(c[used..])
  }

  lemma {:induction false} DecodeAllNext(c: string)
    ensures c == "" || Decode(c).Stuck? ==> DecodeAll(c) == []
    ensures Decode(c).Got? ==> DecodeAll(c) == [Decode(c).field] + DecodeAll(c[Decode(c).used..])
  {
  }

  /** The command word and then the arguments, as `handle_request` and the handlers read them from the line. */
  method ReadFields(buffer: array<char>, start: nat, size: nat) returns (fields: seq<string>)
    requires start + size <= buffer.Length
    modifies buffer
    ensures fields == DecodeAll(old(buffer[start..start + size]))
    ensures forall k :: 0 <= k < start || start + size <= k < buffer.Length ==> buffer[k] == old(buffer[k])
    ensures size > 0 && old(buffer[start + size - 1]) == '\0' ==> buffer[start + size - 1] == '\0'
  {
    hide Decode, DecodeAll;
    ghost var c := buffer[start..start + size];
    var pos: nat, left: nat := start, size;
    fields := [];
    assert c[0..] == c;
    while left > 0
      invariant start <= pos && pos + left == start + size
      invariant buffer[pos..start + size] == c[pos - start..]
      invariant DecodeAll(c) == fields + DecodeAll(c[pos - start..])
      invariant forall k :: 0 <= k < start || start + size <= k < buffer.Length ==> buffer[k] == old(buffer[k])
      invariant size > 0 && old(buffer[start + size - 1]) == '\0' ==> buffer[start + size - 1] == '\0'
      decreases left
    {
      ghost var at := pos - start;
      var first := pos;
      var ok, len;
      DecodeAllNext(c[at..]);
      ok, pos, left, len := BufferGetField(buffer, pos, left);
      if !ok {
        return;
      }
      assert fields + [Decode(c[at..]).field] + DecodeAll(c[at..][pos - first..]) == DecodeAll(c);
      assert c[at..][pos - first..] == c[pos - start..];
      fields := fields + [buffer[first..first + len]];
    }
    DecodeAllNext(c[pos - start..]);
  }

  // ----- lines

  /** Position of the first newline, as `memchr` finds it. */
  function Eol(s: string): (i: nat)
    ensures i <= |s| && '\n' !in s[..i] && (i < |s| ==> s[i] == '\n')
  {
    if s == "" || s[0] == '\n' then 0 else 1 + Eol(s[1..])
  }

  lemma {:induction false} EolIs(s: string, i: nat)
    requires i < |s| && s[i] == '\n' && '\n' !in s[..i]
    ensures Eol(s) == i
  {
    if i > 0 {
      assert s[..i][0] == s[0] && s[1..][..i - 1] == s[..i][1..];
      EolIs(s[1..], i - 1);
    }
  }

  function StripCr(line: string): string {
    if line != "" && line[|line| - 1] == '\r' then line[..|line| - 1] else line
  }

  /** The lines of a byte stream that are complete, without their newlines. */
  function Lines(s: string): seq<string>
    decreases |s|
  {
    if Eol(s) == |s| then [] else [s[..Eol(s)]] + Lines(s[Eol(s) + 1..])
  }

  /** What is left behind the last newline. */
  function Tail(s: string): (t: string)
    ensures |t| <= |s|
    decreases |s|
  {
    if Eol(s) == |s| then s else Tail(s[Eol(s) + 1..])
  }

  lemma {:induction false} FirstLine(s: string)
    requires Eol(s) < |s|
    ensures Lines(s) == [s[..Eol(s)]] + Lines(s[Eol(s) + 1..])
    ensures Tail(s) == Tail(s[Eol(s) + 1..])
  {
  }

  lemma {:induction false} LinesOne(h: string)
    ensures Lines(h) == if Eol(h) == |h| then [] else [h[..Eol(h)]] + Lines(h[Eol(h) + 1..])
    ensures Tail(h) == if Eol(h) == |h| then h else Tail(h[Eol(h) + 1..])
  {
    hide Lines, Tail;
    if Eol(h) == |h| { NoLine(h); } else { FirstLine(h); }
  }

  lemma {:induction false} NoLine(s: string)
    requires Eol(s) == |s|
    ensures Lines(s) == [] && Tail(s) == s
  {
  }

  /** Splitting does not depend on how the stream is cut into pieces. */
  lemma {:induction false} LinesConcat(a: string, b: string)
    ensures Lines(a + b) == Lines(a) + Lines(Tail(a) + b)
    ensures Tail(a + b) == Tail(Tail(a) + b)
    decreases |a|
  {
    hide Lines, Tail;
    var i := Eol(a);
    if i == |a| {
      NoLine(a);
    } else {
      assert (a + b)[..i] == a[..i];
      EolIs(a + b, i);
      FirstLine(a);
      FirstLine(a + b);
      assert (a + b)[i + 1..] == a[i + 1..] + b;
      LinesConcat(a[i + 1..], b);
    }
  }

  /** The commands in a piece of the stream: each complete line without its carriage return, terminated, decoded. */
  function Commands(lines: seq<string>): seq<seq<string>> {
    if lines == [] then [] else [DecodeAll(StripCr(lines[0]) + "\0")] + Commands(lines[1..])
  }

  lemma {:induction false} CommandsConcat(a: seq<string>, b: seq<string>)
    ensures Commands(a + b) == Commands(a) + Commands(b)
  {
    if a == [] {
      assert a + b == b;
    } else {
      assert (a + b)[1..] == a[1..] + b;
      CommandsConcat(a[1..], b);
    }
  }

  lemma Pieces(r: array<char>, lo: nat, mid: nat, hi: nat)
    requires lo <= mid < hi <= r.Length
    ensures r[lo..hi][..mid - lo] == r[lo..mid]
    ensures r[lo..hi][mid - lo + 1..] == r[mid + 1..hi]
  {
  }

  class Socket {
    const rbuf: array<char>
    var nextCmd: nat
    var nextRead: nat

    constructor ()
      ensures Valid() && fresh(rbuf) && nextCmd == 0 && Held() == ""
    {
      rbuf := new char[RBUF_SIZE];
      nextCmd, nextRead := 0, 0;
    }

    ghost predicate Valid()
      reads this, rbuf
    {
      rbuf.Length == RBUF_SIZE && nextCmd <= nextRead <= RBUF_SIZE && (nextCmd > 0 ==> rbuf[nextCmd - 1] == '\0')
    }

    /** Bytes read and not yet split off. */
    ghost function Held(): string
      reads this, rbuf
      requires Valid()
    {
      rbuf[nextCmd..nextRead]
    }

    /** `memchr` on the held bytes. */
    method FindEol() returns (eol: nat)
      requires Valid()
      ensures eol == nextCmd + Eol(Held())
    {
      eol := nextCmd;
      ghost var s := Held();
      while eol < nextRead && rbuf[eol] != '\n'
        invariant nextCmd <= eol <= nextRead && Eol(s) == eol - nextCmd + Eol(s[eol - nextCmd..])
      {
        assert s[eol - nextCmd] == rbuf[eol];
        assert s[eol - nextCmd..][1..] == s[eol + 1 - nextCmd..];
        eol := eol + 1;
      }
      if eol < nextRead {
        assert s[eol - nextCmd] == rbuf[eol];
      }
    }

    /** The `memmove` of the remainder to the front. */
    method Compact()
      requires Valid()
      modifies this, rbuf
      ensures Valid() && nextCmd == 0 && Held() == old(Held())
    {
      ghost var s := Held();
      var n := nextRead - nextCmd;
      forall k | 0 <= k < n {
        rbuf[k] := rbuf[nextCmd + k];
      }
      nextRead := n;
      nextCmd := 0;
      assert forall k :: 0 <= k < n ==> rbuf[k] == s[k];
    }

    /** `next_cmd`: the next complete line, cut off at its newline or carriage return, or nothing. */
    method NextCmd() returns (found: bool, cmd: nat, len: nat)
      requires Valid()
      modifies this, rbuf
      ensures Valid()
      ensures var s := old(Held());
              if Eol(s) < |s| then
                found && cmd + len < nextCmd && rbuf[cmd..cmd + len + 1] == StripCr(s[..Eol(s)]) + "\0" &&
                Held() == s[Eol(s) + 1..]
              else !found && Held() == s && nextCmd == 0
    {
      hide Eol, StripCr;
      var eol := FindEol();
      if eol == nextRead {
        Compact();
        return false, 0, 0;
      }
      found, cmd := true, nextCmd;
      len := SplitOff(eol);
    }

    /** Terminates the line that ends at `eol` and moves on behind it. */
    method SplitOff(eol: nat) returns (len: nat)
      requires Valid() && nextCmd <= eol < nextRead
      modifies this, rbuf
      ensures Valid() && old(nextCmd) + len < nextCmd
      ensures var s, i := old(Held()), eol - old(nextCmd);
              rbuf[old(nextCmd)..old(nextCmd) + len + 1] == StripCr(s[..i]) + "\0" && Held() == s[i + 1..]
    {
      hide StripCr;
      ghost var rest := rbuf[eol + 1..nextRead];
      Pieces(rbuf, nextCmd, eol, nextRead);
      len := CutLine(nextCmd, eol);
      assert rbuf[eol + 1..nextRead] == rest;
      nextCmd := eol + 1;
    }

    /** Terminates the line that runs from `cmd` to the newline at `eol`, and its carriage return if it has one. */
    method CutLine(cmd: nat, eol: nat) returns (len: nat)
      requires cmd <= eol < rbuf.Length && (cmd == eol > 0 ==> rbuf[eol - 1] == '\0')
      modifies rbuf
      ensures cmd + len <= eol && rbuf[eol] == '\0'
      ensures rbuf[cmd..cmd + len + 1] == StripCr(old(rbuf[cmd..eol])) + "\0"
      ensures forall k :: eol < k < rbuf.Length ==> rbuf[k] == old(rbuf[k])
    {
      ghost var line := rbuf[cmd..eol];
      rbuf[eol] := '\0';
      if eol > 0 && rbuf[eol - 1] == '\r' {
        rbuf[eol - 1] := '\0';
        len := eol - 1 - cmd;
        assert rbuf[cmd..cmd + len] == line[..|line| - 1];
      } else {
        len := eol - cmd;
        assert rbuf[cmd..cmd + len] == line;
      }
    }

    /** The inner loop of `connection_thread_main`: every complete command in the buffer is handled. */
    method Drain() returns (commands: seq<seq<string>>)
      requires Valid()
      modifies this, rbuf
      ensures Valid() && nextCmd == 0
      ensures Held() == Tail(old(Held())) && commands == Commands(Lines(old(Held())))
    {
      hide Eol, StripCr, DecodeAll, Lines, Tail, Commands;
      ghost var s := Held();
      commands := [];
      CommandsNone();
      while true
        invariant Valid()
        invariant Tail(s) == Tail(Held()) && Commands(Lines(s)) == commands + Commands(Lines(Held()))
        decreases |Held()|
      {
        LinesNext(Held());
        var found, fields := HandleNext();
        if !found {
          return;
        }
        commands := commands + [fields];
      }
    }

    /** Splits off the next command and reads its fields in place. */
    method HandleNext() returns (found: bool, fields: seq<string>)
      requires Valid()
      modifies this, rbuf
      ensures Valid()
      ensures var h := old(Held());
              if Eol(h) < |h| then found && fields == DecodeAll(StripCr(h[..Eol(h)]) + "\0") && Held() == h[Eol(h) + 1..]
              else !found && Held() == h && nextCmd == 0
    {
      hide Eol, StripCr, DecodeAll;
      var cmd, len;
      found, cmd, len := NextCmd();
      if !found {
        return false, [];
      }
      assert rbuf[cmd + len] == rbuf[cmd..cmd + len + 1][len] == '\0';
      fields := ReadLine(cmd, len);
    }

    /** The fields of a terminated line; decoding stays inside the line and keeps the terminator. */
    method ReadLine(cmd: nat, len: nat) returns (fields: seq<string>)
      requires Valid() && cmd + len < nextCmd && rbuf[cmd + len] == '\0'
      modifies rbuf
      ensures Valid() && Held() == old(Held())
      ensures fields == DecodeAll(old(rbuf[cmd..cmd + len + 1]))
    {
      hide DecodeAll;
      fields := ReadFields(rbuf, cmd, len + 1);
    }

    /** One `read`: at most as many bytes as the connection delivers now and the buffer has room for. */
    method Receive(stream: string, at: nat, size: nat) returns (n: nat)
      requires Valid() && nextCmd == 0 && at <= |stream|
      modifies this`nextRead, rbuf
      ensures Valid() && nextCmd == 0 && at + n <= |stream|
      ensures n == Min(size, Min(|stream| - at, RBUF_SIZE - |old(Held())|))
      ensures Held() == old(Held()) + stream[at..at + n]
    {
      ghost var h := Held();
      n := Min(size, Min(|stream| - at, RBUF_SIZE - nextRead));
      var end, k := nextRead, 0;
      while k < n
        invariant 0 <= k <= n && nextRead == end
        invariant forall j :: 0 <= j < end ==> rbuf[j] == h[j]
        invariant forall j :: end <= j < end + k ==> rbuf[j] == stream[at + (j - end)]
      {
        rbuf[end + k] := stream[at + k];
        k := k + 1;
      }
      assert rbuf[..end + n] == h + stream[at..at + n];
      nextRead := end + n;
    }

    /** The outer loop: read what comes, handle what is complete, until nothing more is read. */
    method Serve(stream: string, sizes: seq<nat>) returns (commands: seq<seq<string>>, consumed: nat)
      requires Valid() && nextCmd == 0 && Held() == ""
      modifies this, rbuf
      ensures Valid() && consumed <= |stream|
      ensures commands == Commands(Lines(stream[..consumed])) && Held() == Tail(stream[..consumed])
      ensures Fits(stream) && (forall n <- sizes :: n > 0) ==> consumed >= Min(|sizes|, |stream|)
    {
      hide Lines, Tail, Commands, Fits;
      commands, consumed := [], 0;
      var i := 0;
      NothingYet(stream);
      while i < |sizes|
        invariant 0 <= i <= |sizes| && Valid() && nextCmd == 0 && consumed <= |stream|
        invariant commands == Commands(Lines(stream[..consumed])) && Held() == Tail(stream[..consumed])
        invariant Fits(stream) && (forall n <- sizes :: n > 0) ==> consumed >= Min(i, |stream|)
      {
        ghost var h := Held();
        if Fits(stream) {
          TailFits(stream, consumed);
        }
        assert sizes[i] in sizes;
        var n := Receive(stream, consumed, sizes[i]);
        if n == 0 {
          return;
        }
        OneRead(stream, consumed, n);
        var more := Drain();
        commands := commands + more;
        consumed := consumed + n;
        i := i + 1;
      }
    }
  }

  function Min(a: nat, b: nat): nat {
    if a < b then a else b
  }

  /** Every line with its newline, and what is left behind the last one, leaves room in the buffer. */
  ghost predicate Fits(stream: string) {
    (forall line <- Lines(stream) :: |line| < RBUF_SIZE) && |Tail(stream)| < RBUF_SIZE
  }

  lemma {:induction false} NothingYet(stream: string)
    ensures Commands(Lines(stream[..0])) == [] && Tail(stream[..0]) == ""
  {
    assert stream[..0] == "";
  }

  lemma OneRead(stream: string, at: nat, n: nat)
    requires at + n <= |stream|
    ensures var h := Tail(stream[..at]) + stream[at..at + n];
            Commands(Lines(stream[..at + n])) == Commands(Lines(stream[..at])) + Commands(Lines(h)) &&
            Tail(stream[..at + n]) == Tail(h)
  {
    hide Lines, Tail, Commands;
    assert stream[..at + n] == stream[..at] + stream[at..at + n];
    LinesConcat(stream[..at], stream[at..at + n]);
    CommandsConcat(Lines(stream[..at]), Lines(Tail(stream[..at]) + stream[at..at + n]));
  }

  /** At every moment the unfinished line is shorter than the buffer, so there is room to read. */
  lemma {:induction false} TailFits(stream: string, at: nat)
    requires Fits(stream) && at <= |stream|
    ensures |Tail(stream[..at])| < RBUF_SIZE
    decreases |stream|
  {
    hide Fits, Lines, Tail;
    var i := Eol(stream);
    LinesOne(stream[..at]);
    if i < at {
      EolIs(stream[..at], i);
      assert stream[..at][i + 1..] == stream[i + 1..][..at - i - 1];
      FitsRest(stream);
      TailFits(stream[i + 1..], at - i - 1);
    } else {
      EolPrefix(stream, at);
      FirstFits(stream);
    }
  }

  lemma FirstFits(stream: string)
    requires Fits(stream)
    ensures Eol(stream) < RBUF_SIZE
  {
    hide Eol;
    LinesOne(stream);
    if Eol(stream) < |stream| {
      assert stream[..Eol(stream)] in Lines(stream);
    }
  }

  lemma FitsRest(stream: string)
    requires Fits(stream) && Eol(stream) < |stream|
    ensures Fits(stream[Eol(stream) + 1..])
  {
    LinesOne(stream);
    forall line <- Lines(stream[Eol(stream) + 1..]) ensures |line| < RBUF_SIZE {
      assert line in Lines(stream);
    }
  }

  lemma EolPrefix(s: string, at: nat)
    requires at <= Eol(s)
    ensures Eol(s[..at]) == at
  {
    assert forall c <- s[..at] :: c in s[..Eol(s)];
  }

  lemma {:induction false} CommandsNone()
    ensures Commands([]) == []
  {
  }

  lemma {:induction false} LinesNext(h: string)
    ensures Eol(h) < |h| ==>
      Tail(h) == Tail(h[Eol(h) + 1..]) &&
      Commands(Lines(h)) == [DecodeAll(StripCr(h[..Eol(h)]) + "\0")] + Commands(Lines(h[Eol(h) + 1..]))
    ensures Eol(h) == |h| ==> Tail(h) == h && Commands(Lines(h)) == []
  {
    hide Eol, StripCr, DecodeAll, Lines, Tail, Commands;
    LinesOne(h);
    CommandsNone();
    if Eol(h) < |h| {
      CommandsFirst(h[..Eol(h)], Lines(h[Eol(h) + 1..]));
    }
  }

  lemma {:induction false} CommandsFirst(line: string, rest: seq<string>)
    ensures Commands([line] + rest) == [DecodeAll(StripCr(line) + "\0")] + Commands(rest)
  {
    hide StripCr, DecodeAll;
    assert ([line] + rest)[1..] == rest;
  }

  // ----- the round trip

  /** The encoded fields with `end` in place of the last blank. */
  function Line(fields: seq<string>, end: char): string {
    Body(fields) + [end]
  }

  lemma {:induction false} EncodeFirst(field: string, rest: seq<string>)
    ensures Encode([field] + rest) == Escape(field) + " " + Encode(rest)
  {
    hide Escape;
    var all := [field] + rest;
    if rest == [] {
      assert all[..0] == [];
    } else {
      assert all[..|all| - 1] == [field] + rest[..|rest| - 1];
      EncodeFirst(field, rest[..|rest| - 1]);
    }
  }

  lemma {:induction false} DecodeEscape(f: string, end: char, rest: string)
    requires '\0' !in f && (end == ' ' || end == '\0')
    ensures Decode(Escape(f) + [end] + rest) == Got(f, |Escape(f)| + 1)
  {
    hide Decode, EscapeChar;
    var c := Escape(f) + [end] + rest;
    if f == "" {
      DecodeEnd(end, rest);
      assert c == [end] + rest;
    } else {
      var behind := Escape(f[1..]) + [end] + rest;
      DecodeEscape(f[1..], end, rest);
      DecodeFirst(f[0], behind);
      assert c == EscapeChar(f[0]) + behind;
      assert f == [f[0]] + f[1..];
    }
  }

  lemma {:induction false} DecodeEnd(end: char, rest: string)
    requires end == ' ' || end == '\0'
    ensures Decode([end] + rest) == Got("", 1)
  {
  }

  lemma {:induction false} DecodeFirst(x: char, c: string)
    requires x != '\0' && Decode(c).Got?
    ensures Decode(EscapeChar(x) + c) == Got([x] + Decode(c).field, |EscapeChar(x)| + Decode(c).used)
  {
    var e := EscapeChar(x) + c;
    if x == ' ' || x == '\\' {
      assert e[2..] == c && e[1] == x;
    } else {
      assert e[1..] == c;
    }
  }

  /** Decoding an encoded line gives the fields back, empty ones and ones with blanks and backslashes included. */
  lemma {:induction false} DecodeLine(fields: seq<string>)
    requires fields != [] && forall f <- fields :: '\0' !in f
    ensures DecodeAll(Line(fields, '\0')) == fields
  {
    hide Decode, Escape;
    var f, rest := fields[0], fields[1..];
    assert fields == [f] + rest;
    EncodeFirst(f, rest);
    var line := Line(fields, '\0');
    DecodeAllNext(line);
    if rest == [] {
      assert Encode(rest) == "";
      assert line == Escape(f) + ['\0'] + "";
      DecodeEscape(f, '\0', "");
      DecodeAllNext(line[|Escape(f)| + 1..]);
    } else {
      EncodeSome(rest);
      assert line == Escape(f) + [' '] + Line(rest, '\0');
      DecodeEscape(f, ' ', Line(rest, '\0'));
      assert line[|Escape(f)| + 1..] == Line(rest, '\0');
      DecodeLine(rest);
    }
  }

  lemma {:induction false} EncodeSome(fields: seq<string>)
    requires fields != []
    ensures Encode(fields) != ""
  {
  }

  /** Fields that survive the wire: no NUL, no newline, and no carriage return at the very end. */
  ghost predicate Sendable(fields: seq<string>) {
    fields != [] && (forall f <- fields :: '\0' !in f && '\n' !in f) &&
    var last := fields[|fields| - 1];
    last == "" || last[|last| - 1] != '\r'
  }

  lemma {:induction false} EscapeKeepsOut(f: string, x: char)
    requires x !in f && x != '\\'
    ensures x !in Escape(f)
  {
    if f != "" {
      EscapeKeepsOut(f[1..], x);
    }
  }

  lemma {:induction false} EncodeKeepsOut(fields: seq<string>, x: char)
    requires (forall f <- fields :: x !in f) && x != '\\' && x != ' '
    ensures x !in Encode(fields)
  {
    hide Escape;
    if fields != [] {
      EncodeKeepsOut(fields[..|fields| - 1], x);
      EscapeKeepsOut(fields[|fields| - 1], x);
    }
  }

  lemma {:induction false} EscapeLast(f: string)
    requires f != ""
    ensures Escape(f) != "" && Escape(f)[|Escape(f)| - 1] == f[|f| - 1]
  {
    if |f| == 1 {
      assert f[1..] == "" && Escape(f) == EscapeChar(f[0]);
    } else {
      EscapeLast(f[1..]);
    }
  }

  /** The line of a request, as the daemon cuts it out. */
  lemma {:induction false} RequestLine(fields: seq<string>)
    requires Sendable(fields)
    ensures var body := Body(fields);
            Request(fields) == body + "\n" && '\n' !in body && StripCr(body) == body &&
            DecodeAll(body + "\0") == fields
  {
    hide Escape, DecodeAll, StripCr;
    EncodeKeepsOut(fields, '\n');
    DecodeLine(fields);
    KeepsBody(fields);
    assert Body(fields) == Encode(fields[..|fields| - 1]) + Escape(fields[|fields| - 1]);
  }

  /** The stripping of a carriage return leaves the body of a request alone. */
  lemma {:induction false} KeepsBody(fields: seq<string>)
    requires Sendable(fields)
    ensures StripCr(Body(fields)) == Body(fields)
  {
    hide Escape;
    var last := fields[|fields| - 1];
    if last != "" {
      EscapeLast(last);
    } else if Body(fields) != "" {
      EmptyLast(fields[..|fields| - 1]);
    }
  }

  lemma EmptyLast(fields: seq<string>)
    requires Encode(fields) + Escape("") != ""
    ensures (Encode(fields) + Escape(""))[|Encode(fields) + Escape("")| - 1] == ' '
  {
  }

  function Requests(batch: seq<seq<string>>): string {
    if batch == [] then "" else Request(batch[0]) + Requests(batch[1..])
  }

  lemma NoLines()
    ensures Lines("") == [] && Tail("") == ""
  {
  }

  lemma {:induction false} RequestsSplit(batch: seq<seq<string>>)
    requires forall i :: 0 <= i < |batch| ==> Sendable(batch[i])
    ensures Commands(Lines(Requests(batch))) == batch && Tail(Requests(batch)) == ""
  {
    hide Lines, Tail, Commands, Sendable, DecodeAll, StripCr, Eol, Body;
    CommandsNone();
    if batch == [] {
      NoLines();
    } else {
      var fields, rest := batch[0], Requests(batch[1..]);
      RequestLine(fields);
      var body := Body(fields);
      var s := Request(fields) + rest;
      assert s[..|body|] == body && s[|body| + 1..] == rest;
      EolIs(s, |body|);
      LinesOne(s);
      CommandsFirst(body, Lines(rest));
      RequestsSplit(batch[1..]);
      assert batch == [fields] + batch[1..];
    }
  }

  /** Whatever pieces the stream arrives in, the daemon reads exactly the fields the client sent. */
  method RoundTrip(batch: seq<seq<string>>, sizes: seq<nat>) returns (commands: seq<seq<string>>)
    requires forall i :: 0 <= i < |batch| ==> Sendable(batch[i])
    requires Fits(Requests(batch)) && |sizes| >= |Requests(batch)| && forall n <- sizes :: n > 0
    ensures commands == batch
  {
    hide Lines, Tail, Commands, Fits;
    var socket := new Socket();
    RequestsSplit(batch);
    var stream := Requests(batch);
    var consumed;
    commands, consumed := socket.Serve(stream, sizes);
    assert stream[..consumed] == stream;
  }
}
