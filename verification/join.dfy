/**
 * The join form: the checks `handleJoin` runs, in order, on the entered
 * session code and participant name, the lookup of the session by its
 * upper-cased code, and the status gate.
 */
module Join {
  import opened Common
  import opened Domain

  const BadCode := "Please enter a valid 6-digit session code"
  const NoName := "Please enter your name"
  const UnknownCode := "Invalid session code"
  const SessionOver := "This session has ended"

  /** A rejected attempt shows `message`; a successful one stores the name
      under `storageKey` and opens the participant page of `sessionId`. */
  datatype JoinResult =
    | Rejected(message: string)
    | Joined(sessionId: string, storageKey: string, name: string)

  /** The code check: a blank code, or one whose length is not 6, is refused. */
  predicate CodeAccepted(code: string) {
    !IsBlank(code) && Utf16Length(code) == 6
  }

  function SessionsWithCode(rows: seq<Session>, code: string): (out: seq<Session>)
    ensures forall s :: s in out <==> s in rows && s.sessionCode == code
  {
    if |rows| == 0 then []
    else (if rows[0].sessionCode == code then [rows[0]] else []) + SessionsWithCode(rows[1..], code)
  }

  /** `handleJoin`, with the outcome of the session read as `read`. */
  function HandleJoin(code: string, name: string, rows: seq<Session>, read: Call): (r: JoinResult)
    ensures !CodeAccepted(code) ==> r == Rejected(BadCode)
    ensures CodeAccepted(code) && IsBlank(name) ==> r == Rejected(NoName)
    ensures r.Joined? ==>
      && CodeAccepted(code) && !IsBlank(name)
      && read.Ok?
      && var found := SessionsWithCode(rows, AsciiUpper(code));
         && |found| == 1
         && found[0].status in {Active, Waiting}
         && r == Joined(found[0].id, "participant_" + found[0].id, name)
    ensures CodeAccepted(code) && !IsBlank(name) ==>
      var found := SessionsWithCode(rows, AsciiUpper(code));
      && (read.Failed? || |found| != 1 ==> r == Rejected(UnknownCode))
      && (read.Ok? && |found| == 1 && found[0].status !in {Active, Waiting} ==> r == Rejected(SessionOver))
      && (read.Ok? && |found| == 1 && found[0].status in {Active, Waiting} ==> r.Joined?)
  {
    TrimEmptyIffBlank(code);
    TrimEmptyIffBlank(name);
    if Trim(code) == "" || Utf16Length(code) != 6 then Rejected(BadCode)
    else if Trim(name) == "" then Rejected(NoName)
    else
      var found := Single(SessionsWithCode(rows, AsciiUpper(code)));
      if read.Failed? || found.None? then Rejected(UnknownCode)
      else if found.value.status != Active && found.value.status != Waiting then Rejected(SessionOver)
      else Joined(found.value.id, "participant_" + found.value.id, name)
  }

  /** The lookup ignores the case of ASCII letters in the entered code:
      two codes that upper-case alike lead to the same outcome. */
  lemma CaseInsensitive(code1: string, code2: string, name: string, rows: seq<Session>, read: Call)
    requires AsciiUpper(code1) == AsciiUpper(code2)
    ensures HandleJoin(code1, name, rows, read) == HandleJoin(code2, name, rows, read)
  {
    TrimEmptyIffBlank(code1);
    TrimEmptyIffBlank(code2);
    UpperKeepsLength(code1);
    UpperKeepsLength(code2);
  }

  /** Upper-casing keeps the code's length, so a code typed in lower case
      passes the length check exactly when its upper-case form does. */
  lemma {:induction false} UpperKeepsLength(code: string)
    ensures Utf16Length(AsciiUpper(code)) == Utf16Length(code)
    ensures IsBlank(AsciiUpper(code)) <==> IsBlank(code)
  {
    UpperKeepsBlank(code);
    if |code| > 0 {
      var upper := AsciiUpper(code);
      assert upper[1..] == AsciiUpper(code[1..]);
      assert upper[0] as int > 0xFFFF <==> code[0] as int > 0xFFFF;
      UpperKeepsLength(code[1..]);
    }
  }

  /** Upper-casing turns no letter into white space and no white space
      into anything else. */
  lemma UpperKeepsBlank(code: string)
    ensures IsBlank(AsciiUpper(code)) <==> IsBlank(code)
  {
    forall i | 0 <= i < |code|
      ensures IsJsSpace(AsciiUpper(code)[i]) <==> IsJsSpace(code[i])
    {
    }
  }

  /** A participant who joins ends up on the page of an open session whose
      code is the upper-cased entry, under a non-blank name stored per
      session, and the participant page's mount check then finds that
      name. */
  lemma JoinedSessionIsOpen(code: string, name: string, rows: seq<Session>, read: Call)
    requires HandleJoin(code, name, rows, read).Joined?
    ensures var r := HandleJoin(code, name, rows, read);
      exists s :: s in rows && s.id == r.sessionId && s.sessionCode == AsciiUpper(code) && s.status in {Active, Waiting}
    ensures var r := HandleJoin(code, name, rows, read);
      r.storageKey == "participant_" + r.sessionId && r.name == name && r.name != ""
  {
    var found := SessionsWithCode(rows, AsciiUpper(code));
    assert found[0] in found;
  }
}
