/** The server's list of trusted client keys: loaded from a key file, one
    key per line, lines starting with '#' being comments; and the
    membership test every request goes through. */
module Authentication {
  import opened Primitives
  import opened FileAccess

  /** The successive results of `readLine` from `cursor` to end of file. */
  function Lines(content: seq<byte>, cursor: nat): (ls: seq<string>)
    ensures ls == [] <==> cursor >= |content|
    ensures cursor + |ls| <= Max(cursor, |content|)
    decreases |content| - cursor
  {
    match NextLine(content, cursor)
    case None => []
    case Some(line) => [line.text] + Lines(content, line.next)
  }

  predicate IsComment(line: string)
  {
    |line| > 0 && line[0] == '#'
  }

  /** The lines kept as keys, in file order. */
  function TrustedLines(ls: seq<string>): (keys: seq<string>)
    ensures |keys| <= |ls|
    ensures forall i :: 0 <= i < |keys| ==> !IsComment(keys[i])
    ensures (forall i :: 0 <= i < |ls| ==> !IsComment(ls[i])) ==> keys == ls
  {
    if ls == [] then []
    else (if IsComment(ls[0]) then [] else [ls[0]]) + TrustedLines(ls[1..])
  }

  /** `anyMatch(key -> key.equals(k))` over a key list. */
  function AnyMatch(keys: seq<string>, k: string): (r: bool)
    ensures r <==> k in keys
  {
    if keys == [] then false
    else keys[0] == k || AnyMatch(keys[1..], k)
  }

  class Auth {
    /** The trusted keys, in the order they were read. */
    var keyList: seq<string>

    constructor ()
      ensures keyList == []
    {
      keyList := [];
    }

    /** Opens `keyfile` read-only and appends every non-comment line to the
        key list. Keys from earlier calls stay. A missing or refused file
        raises and adds nothing. */
    method Setup(keyfile: string, disk: DiskState, hash: string -> int, now: int) returns (o: Outcome)
      modifies this`keyList
      ensures o.Raised? <==> !disk.Present?
      ensures o.Raised? ==> o.fault.IOException? && keyList == old(keyList)
      ensures o.Done? ==> keyList == old(keyList) + TrustedLines(Lines(disk.entry.content, 0))
    {
      var accessor := Open(keyfile, true, hash, disk, now);
      if accessor.Failure? {
        return Raised(accessor.fault);
      }
      var file := accessor.value;
      ghost var content := file.content;
      while true
        invariant file.content == content && !file.closed
        invariant keyList + TrustedLines(Lines(content, file.cursor)) == old(keyList) + TrustedLines(Lines(content, 0))
        decreases |content| - file.cursor
      {
        ghost var start := file.cursor;
        var line := file.ReadLine();
        if line == Success(None) {
          break;
        }
        var text := line.value.value;
        ReadLineStep(content, start, line, file.cursor);
        SetupStep(content, start, file.cursor, text, keyList, old(keyList) + TrustedLines(Lines(content, 0)));
        if !IsComment(text) {
          keyList := keyList + [text];
        }
      }
      o := Done;
    }

    /** Whether a client key is trusted: exact string equality with some
        listed key. */
    function CheckTrusted(clientKey: string): (r: bool)
      reads this
      ensures r <==> clientKey in keyList
    {
      AnyMatch(keyList, clientKey)
    }
  }

  /** A `readLine` on an open handle that did not hit end of file returned
      the next line and moved past it. */
  lemma ReadLineStep(content: seq<byte>, cursor: nat, line: Result<Option<string>>, next: nat)
    requires line == LineRead(content, false, cursor) && line != Success(None)
    requires next == CursorAfterLine(content, false, cursor)
    ensures line.Success? && line.value.Some?
    ensures NextLine(content, cursor) == Some(Line(line.value.value, next))
  {
  }

  /** The loop of the key-file reader keeps "keys so far, then the keys
      still to read" equal to the whole result. */
  lemma SetupStep(content: seq<byte>, cursor: nat, next: nat, text: string, keys: seq<string>, all: seq<string>)
    requires NextLine(content, cursor) == Some(Line(text, next))
    requires keys + TrustedLines(Lines(content, cursor)) == all
    ensures (if IsComment(text) then keys else keys + [text]) + TrustedLines(Lines(content, next)) == all
  {
    var rest := Lines(content, next);
    assert Lines(content, cursor) == [text] + rest;
    assert ([text] + rest)[1..] == rest;
    assert TrustedLines([text] + rest) == (if IsComment(text) then [] else [text]) + TrustedLines(rest);
  }

  /** A key is trusted exactly when it is a line of the file that is not a
      comment. */
  lemma {:induction false} TrustedLinesMembership(ls: seq<string>, k: string)
    ensures k in TrustedLines(ls) <==> k in ls && !IsComment(k)
    decreases |ls|
  {
    if ls != [] {
      TrustedLinesMembership(ls[1..], k);
      assert ls == [ls[0]] + ls[1..];
    }
  }

  /** Keys keep the order of the file: filtering a concatenation is the
      concatenation of the filtered parts. */
  lemma {:induction false} TrustedLinesAppend(a: seq<string>, b: seq<string>)
    ensures TrustedLines(a + b) == TrustedLines(a) + TrustedLines(b)
    decreases |a|
  {
    if a == [] {
      assert a + b == b;
    } else {
      assert (a + b)[0] == a[0];
      assert (a + b)[1..] == a[1..] + b;
      TrustedLinesAppend(a[1..], b);
    }
  }

  /** `readLine` strips its terminators: no key contains a line feed or a
      carriage return. */
  lemma {:induction false} LinesHaveNoTerminator(content: seq<byte>, cursor: nat, k: string)
    requires k in Lines(content, cursor)
    ensures '\n' !in k && '\r' !in k
    decreases |content| - cursor
  {
    match NextLine(content, cursor)
    case None =>
    case Some(line) =>
      if k == line.text {
        forall i | 0 <= i < |k|
          ensures k[i] != '\n' && k[i] != '\r'
        {
          assert k[i] == ByteChar(content[cursor + i]);
          assert !IsLineEnd(content[cursor + i]);
        }
      } else {
        LinesHaveNoTerminator(content, line.next, k);
      }
  }

  /** A blank line inside the key file is read as the empty key, so a
      request carrying an empty key is trusted. */
  lemma BlankLineTrustsEmptyKey()
    ensures "" in TrustedLines(Lines([65, LF, LF, 66], 0))
  {
    var c: seq<byte> := [65, LF, LF, 66];
    DecodeOne(65);
    DecodeOne(66);
    assert c[0..1] == [65] && c[3..4] == [66] && c[2..2] == [];
    assert LineEnd(c, 0) == 1;
    assert NextLine(c, 0) == Some(Line("A", 2));
    assert LineEnd(c, 2) == 2;
    assert NextLine(c, 2) == Some(Line("", 3));
    assert LineEnd(c, 3) == 4;
    assert NextLine(c, 3) == Some(Line("B", 4));
    assert Lines(c, 4) == [];
    assert Lines(c, 3) == ["B"];
    assert Lines(c, 2) == ["", "B"];
    assert Lines(c, 0) == ["A", "", "B"];
    assert TrustedLines(["B"]) == ["B"];
    assert TrustedLines(["", "B"]) == ["", "B"];
  }

  /** A terminator at end of file does not produce an extra empty line. */
  lemma TrailingTerminatorAddsNoLine()
    ensures Lines([65, CR, LF], 0) == ["A"]
  {
    var c: seq<byte> := [65, CR, LF];
    DecodeOne(65);
    assert c[0..1] == [65];
    assert LineEnd(c, 0) == 1;
    assert NextLine(c, 0) == Some(Line("A", 3));
    assert Lines(c, 3) == [];
  }

  lemma DecodeOne(b: byte)
    ensures Decode([b]) == [ByteChar(b)]
  {
    assert [b][..0] == [];
  }
}
