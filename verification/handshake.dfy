/** One client connection (Server::handleClient): read the login, reject an
    unknown one at once, send the salt, read the hash, answer "OK" and run
    the vector protocol, or answer "ERR"; then close the socket. The
    function returns everything the server does on the socket, in order. */
module Handshake {
  import opened Wrappers
  import opened Sequences
  import opened Wire
  import opened Hex
  import opened Credentials
  import opened Auth
  import opened VectorProtocol

  /** sizeof(loginBuffer) - 1: room is kept for the terminating NUL. Both
      limits count bytes; each `char` of a model string stands for one byte. */
  const LOGIN_LIMIT: nat := 255
  /** sizeof(hashBuffer) - 1: 64 hex characters of SHA-256. */
  const HASH_LIMIT: nat := 64

  const OK: string := "OK"
  const ERR: string := "ERR"

  /** What one send call puts on the wire. */
  datatype Payload = Text(text: string) | Binary(data: seq<byte>)

  /** An action on the client socket. */
  datatype Event = Send(payload: Payload) | Close

  /** How the connection ended. */
  datatype Ending =
    | LoginReadFailed
    | UnknownLogin
    | HashReadFailed
    | HashingFailed(error: HashError)
    | Rejected
    | Served

  datatype Session = Session(events: seq<Event>, ending: Ending)

  /** A recv into a buffer of `limit` bytes followed by std::string(buffer):
      at most `limit` of the available characters, cut at the first NUL. An
      empty result with nothing available is the `bytesRead <= 0` case. */
  function ReadCString(available: string, limit: nat): (s: string)
    ensures |s| <= limit && |s| <= |available| && s == available[..|s|]
    ensures '\0' !in s
    ensures |s| < |available| && |s| < limit ==> available[|s|] == '\0'
  {
    var n := if |available| < limit then |available| else limit;
    CString(available[..n])
  }

  /** The characters of a C string buffer before its first NUL. */
  function CString(buffer: string): (s: string)
    ensures |s| <= |buffer| && s == buffer[..|s|]
    ensures '\0' !in s
    ensures |s| < |buffer| ==> buffer[|s|] == '\0'
  {
    match IndexOf(buffer, '\0')
    case None => buffer
    case Some(i) => buffer[..i]
  }

  predicate IsStatus(e: Event)
  {
    e == Send(Text(OK)) || e == Send(Text(ERR))
  }

  predicate IsResults(e: Event)
  {
    e.Send? && e.payload.Binary?
  }

  /** The socket is closed exactly once, as the last action. */
  ghost predicate ClosedOnceAtEnd(events: seq<Event>)
  {
    && |events| > 0 && events[|events| - 1] == Close
    && forall i :: 0 <= i < |events| - 1 ==> events[i] != Close
  }

  /** At most one "OK"/"ERR" status token is sent. */
  ghost predicate AtMostOneStatus(events: seq<Event>)
  {
    forall i, j :: 0 <= i < j < |events| ==> !(IsStatus(events[i]) && IsStatus(events[j]))
  }

  /** Vector results are only ever sent right after "OK". */
  ghost predicate ResultsOnlyAfterOk(events: seq<Event>)
  {
    forall i :: 0 <= i < |events| && IsResults(events[i]) ==> i == 2 && events[1] == Send(Text(OK))
  }

  ghost predicate SendsResults(events: seq<Event>)
  {
    exists i :: 0 <= i < |events| && IsResults(events[i])
  }

  /** The transcript of an accepted client. */
  lemma ServedTranscript(salt: string, results: seq<Event>)
    requires |salt| == 16
    requires results == [] || (|results| == 1 && IsResults(results[0]))
    ensures var events := [Send(Text(salt)), Send(Text(OK))] + results + [Close];
            ClosedOnceAtEnd(events) && AtMostOneStatus(events) && ResultsOnlyAfterOk(events)
  {
    var events := [Send(Text(salt)), Send(Text(OK))] + results + [Close];
    assert !IsStatus(events[0]);
    assert forall i :: 2 <= i < |events| ==> events[i] == Close || IsResults(events[i]);
  }

  /** handleClient. `loginAvailable` and `hashAvailable` are what the client
      has sent when each recv runs (empty when the peer closed or the read
      failed), `vectorInput` is the byte stream after the handshake, and
      `saltValue` is the 64-bit draw of the random generator. */
  function HandleClient(users: UserTable, sha: Sha256Engine, saltValue: uint64,
                        loginAvailable: string, hashAvailable: string, vectorInput: seq<byte>): (s: Session)
    ensures ClosedOnceAtEnd(s.events)
    ensures AtMostOneStatus(s.events)
    ensures ResultsOnlyAfterOk(s.events)
    ensures SendsResults(s.events) ==> s.ending == Served
  {
    if |loginAvailable| == 0 then
      Session([Close], LoginReadFailed)
    else
      var login := ReadCString(loginAvailable, LOGIN_LIMIT);
      var salt := GenerateSalt(saltValue);
      assert |salt| == 16 && salt != OK && salt != ERR;
      if !UserExists(users, login) then
        Session([Send(Text(ERR)), Close], UnknownLogin)
      else if |hashAvailable| == 0 then
        Session([Send(Text(salt)), Close], HashReadFailed)
      else
        var received := ReadCString(hashAvailable, HASH_LIMIT);
        match VerifyHash(users, sha, login, salt, received)
        case Failure(e) =>
          Session([Send(Text(salt)), Close], HashingFailed(e))
        case Success(true) =>
          var reply := ProcessVectors(vectorInput);
          var results := if |reply| == 0 then [] else [Send(Binary(reply))];
          ServedTranscript(salt, results);
          Session([Send(Text(salt)), Send(Text(OK))] + results + [Close], Served)
        case Success(false) =>
          Session([Send(Text(salt)), Send(Text(ERR)), Close], Rejected)
  }

  /** A failed or empty login read closes the socket without sending. */
  lemma LoginReadFailureSendsNothing(users: UserTable, sha: Sha256Engine, saltValue: uint64,
                                     hashAvailable: string, vectorInput: seq<byte>)
    ensures HandleClient(users, sha, saltValue, "", hashAvailable, vectorInput).events == [Close]
  {
  }

  /** An unknown login gets "ERR" and nothing else: no salt, no vector
      protocol. */
  lemma UnknownLoginOnlyErr(users: UserTable, sha: Sha256Engine, saltValue: uint64,
                            loginAvailable: string, hashAvailable: string, vectorInput: seq<byte>)
    requires |loginAvailable| > 0
    requires ReadCString(loginAvailable, LOGIN_LIMIT) !in users
    ensures var s := HandleClient(users, sha, saltValue, loginAvailable, hashAvailable, vectorInput);
            s.events == [Send(Text(ERR)), Close] && s.ending == UnknownLogin
  {
  }

  /** A known login is first sent the 16-character salt. */
  lemma KnownLoginGetsSalt(users: UserTable, sha: Sha256Engine, saltValue: uint64,
                           loginAvailable: string, hashAvailable: string, vectorInput: seq<byte>)
    requires |loginAvailable| > 0
    requires ReadCString(loginAvailable, LOGIN_LIMIT) in users
    ensures var s := HandleClient(users, sha, saltValue, loginAvailable, hashAvailable, vectorInput);
            |s.events| >= 2 && s.events[0] == Send(Text(GenerateSalt(saltValue)))
            && |GenerateSalt(saltValue)| == 16
  {
  }

  /** The vector protocol runs, after "OK", exactly when the login is known,
      a hash arrived and verifyHash accepts it; a served client, whatever
      hash it sent, gets the salt, "OK" and the products of its batch. */
  lemma ServedIffVerified(users: UserTable, sha: Sha256Engine, saltValue: uint64,
                          loginAvailable: string, hashAvailable: string, vectorInput: seq<byte>)
    ensures var s := HandleClient(users, sha, saltValue, loginAvailable, hashAvailable, vectorInput);
            var login := ReadCString(loginAvailable, LOGIN_LIMIT);
            var received := ReadCString(hashAvailable, HASH_LIMIT);
            s.ending == Served <==>
              && |loginAvailable| > 0 && |hashAvailable| > 0
              && VerifyHash(users, sha, login, GenerateSalt(saltValue), received) == Success(true)
    ensures var s := HandleClient(users, sha, saltValue, loginAvailable, hashAvailable, vectorInput);
            var reply := ProcessVectors(vectorInput);
            s.ending == Served ==>
              s.events == [Send(Text(GenerateSalt(saltValue))), Send(Text(OK))]
                          + (if |reply| == 0 then [] else [Send(Binary(reply))]) + [Close]
  {
  }

  /** A known login whose hash is wrong gets the salt, then "ERR". */
  lemma WrongHashRejected(users: UserTable, sha: Sha256Engine, saltValue: uint64,
                          loginAvailable: string, hashAvailable: string, vectorInput: seq<byte>)
    requires |loginAvailable| > 0 && |hashAvailable| > 0
    requires VerifyHash(users, sha, ReadCString(loginAvailable, LOGIN_LIMIT), GenerateSalt(saltValue),
                        ReadCString(hashAvailable, HASH_LIMIT)) == Success(false)
    requires ReadCString(loginAvailable, LOGIN_LIMIT) in users
    ensures HandleClient(users, sha, saltValue, loginAvailable, hashAvailable, vectorInput).events
         == [Send(Text(GenerateSalt(saltValue))), Send(Text(ERR)), Close]
  {
  }

  /** A failed hash read, or a hashing failure, ends the session after the
      salt with no status token at all. */
  lemma NoTokenWithoutVerdict(users: UserTable, sha: Sha256Engine, saltValue: uint64,
                              loginAvailable: string, hashAvailable: string, vectorInput: seq<byte>)
    requires |loginAvailable| > 0
    requires ReadCString(loginAvailable, LOGIN_LIMIT) in users
    requires |hashAvailable| == 0
          || VerifyHash(users, sha, ReadCString(loginAvailable, LOGIN_LIMIT), GenerateSalt(saltValue),
                        ReadCString(hashAvailable, HASH_LIMIT)).Failure?
    ensures HandleClient(users, sha, saltValue, loginAvailable, hashAvailable, vectorInput).events
         == [Send(Text(GenerateSalt(saltValue))), Close]
  {
  }

  /** A client that knows the password and answers the salt with the
      expected hash is let in, and gets the products of its batch. */
  lemma HonestClientServed(users: UserTable, sha: Sha256Engine, saltValue: uint64,
                           login: string, vectorInput: seq<byte>)
    requires 0 < |login| <= LOGIN_LIMIT && '\0' !in login
    requires login in users
    requires ComputeHash(sha, GenerateSalt(saltValue), users[login]).Success?
    ensures var hash := ComputeHash(sha, GenerateSalt(saltValue), users[login]).value;
            var s := HandleClient(users, sha, saltValue, login, hash, vectorInput);
            var reply := ProcessVectors(vectorInput);
            && s.ending == Served
            && s.events == [Send(Text(GenerateSalt(saltValue))), Send(Text(OK))]
                           + (if |reply| == 0 then [] else [Send(Binary(reply))]) + [Close]
  {
    var hash := ComputeHash(sha, GenerateSalt(saltValue), users[login]).value;
    CStringOfPlain(login, LOGIN_LIMIT);
    assert '\0' !in hash by {
      assert forall i :: 0 <= i < |hash| ==> IsHexDigit(hash[i]);
    }
    CStringOfPlain(hash, HASH_LIMIT);
  }

  /** A string without NUL that fits the buffer is read back unchanged. */
  lemma CStringOfPlain(text: string, limit: nat)
    requires |text| <= limit && '\0' !in text
    ensures ReadCString(text, limit) == text
  {
    assert text[..|text|] == text;
  }
}
