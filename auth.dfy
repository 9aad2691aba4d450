/** The pure part of authentication: reading the bearer token out of the `Authorization`
    header, the token gate in front of every document route, and the lower-casing that the
    user schema applies to e-mail addresses. Signature checks are left to a `verify`
    parameter that stands for the token library. */
module Auth {
  import opened Wrappers
  import opened Http

  type UserId = nat

  /** JavaScript's `s.split(" ")`: the pieces between single spaces, empty pieces kept,
      so that `n` spaces always give `n + 1` pieces. */
  function Split(s: string): (pieces: seq<string>)
    ensures |pieces| >= 1
    ensures forall i :: 0 <= i < |pieces| ==> ' ' !in pieces[i]
    decreases |s|
  {
    if s == [] then [[]]
    else
      var rest := Split(s[1..]);
      if s[0] == ' ' then [[]] + rest
      else [[s[0]] + rest[0]] + rest[1..]
  }

  /** `pieces.join(" ")`, the inverse of `Split`. */
  function Join(pieces: seq<string>): string
    requires |pieces| >= 1
    decreases |pieces|
  {
    if |pieces| == 1 then pieces[0] else pieces[0] + " " + Join(pieces[1..])
  }

  /** Splitting loses nothing: joining the pieces back with single spaces gives the input. */
  lemma {:induction false} JoinSplit(s: string)
    ensures Join(Split(s)) == s
    decreases |s|
  {
    if s != [] {
      var rest := Split(s[1..]);
      JoinSplit(s[1..]);
      if s[0] == ' ' {
        assert Split(s) == [[]] + rest;
        assert ([[]] + rest)[1..] == rest;
        assert Join(Split(s)) == [] + " " + Join(rest);
      } else if |rest| == 1 {
        assert Split(s) == [[s[0]] + rest[0]];
        assert Join(rest) == rest[0];
      } else {
        var first := [s[0]] + rest[0];
        assert Split(s) == [first] + rest[1..];
        assert ([first] + rest[1..])[1..] == rest[1..];
        calc {
          Join(Split(s));
          first + " " + Join(rest[1..]);
          [s[0]] + (rest[0] + " " + Join(rest[1..]));
          [s[0]] + Join(rest);
        }
      }
    }
  }

  /** A string without spaces is a single piece. */
  lemma {:induction false} SplitWord(w: string)
    requires ' ' !in w
    ensures Split(w) == [w]
    decreases |w|
  {
    if w != [] {
      SplitWord(w[1..]);
      assert [w[0]] + w[1..] == w;
    }
  }

  /** A word followed by a space is split off as the first piece. */
  lemma {:induction false} SplitAfterWord(w: string, tail: string)
    requires ' ' !in w
    ensures Split(w + " " + tail) == [w] + Split(tail)
    decreases |w|
  {
    var s := w + " " + tail;
    if w == [] {
      assert s[0] == ' ' && s[1..] == tail;
    } else {
      SplitAfterWord(w[1..], tail);
      assert s[0] == w[0] && s[1..] == w[1..] + " " + tail;
      assert [w[0]] + w[1..] == w;
    }
  }

  /** Splitting is also injective on its range: pieces without spaces survive a join and a split. */
  lemma {:induction false} SplitJoin(pieces: seq<string>)
    requires |pieces| >= 1
    requires forall i :: 0 <= i < |pieces| ==> ' ' !in pieces[i]
    ensures Split(Join(pieces)) == pieces
    decreases |pieces|
  {
    if |pieces| == 1 {
      SplitWord(pieces[0]);
    } else {
      SplitJoin(pieces[1..]);
      SplitAfterWord(pieces[0], Join(pieces[1..]));
      assert [pieces[0]] + pieces[1..] == pieces;
    }
  }

  /** `req.headers.authorization?.split(" ")[1]`: the second space-separated piece of the
      header, `None` when the header is absent or has no space (JavaScript's `undefined`). */
  function ExtractToken(header: Option<string>): Option<string>
  {
    match header
    case None => None
    case Some(h) =>
      var pieces := Split(h);
      if |pieces| >= 2 then Some(pieces[1]) else None
  }

  /** The token of `"<scheme> <token>"`, possibly followed by more space-separated text. */
  lemma BearerTokenExtracted(scheme: string, token: string, tail: string)
    requires ' ' !in scheme && ' ' !in token
    requires tail == [] || tail[0] == ' '
    ensures ExtractToken(Some(scheme + " " + token + tail)) == Some(token)
  {
    assert scheme + " " + token + tail == scheme + " " + (token + tail);
    SplitAfterWord(scheme, token + tail);
    if tail == [] {
      assert token + tail == token;
      SplitWord(token);
    } else {
      assert token + tail == token + " " + tail[1..];
      SplitAfterWord(token, tail[1..]);
    }
  }

  /** A header without a space (a bare token, with no scheme in front of it) yields no token. */
  lemma NoSpaceNoToken(h: string)
    requires ' ' !in h
    ensures ExtractToken(Some(h)) == None
  {
    SplitWord(h);
  }

  /** Outcome of the token middleware: the caller's id, or a 401 reply. */
  datatype Verdict = Authenticated(userId: UserId) | Rejected(reply: Reply)

  /** `verifyToken`: a missing or empty token is "Unauthorized"; a token the token library
      (`verify`, standing for `jwt.verify` with the server's secret) refuses is "Invalid token";
      otherwise the request proceeds as the user id the token carries. */
  function Authenticate(header: Option<string>, verify: string -> Option<UserId>): (v: Verdict)
    ensures v.Rejected? ==> v.reply.status == Unauthorized
    ensures v.Rejected? ==>
              (v.reply.message == MsgUnauthorized <==>
                 ExtractToken(header).None? || ExtractToken(header).value == "")
    ensures v.Rejected? && v.reply.message != MsgUnauthorized ==> v.reply.message == MsgInvalidToken
    ensures v.Authenticated? <==>
              ExtractToken(header).Some? && ExtractToken(header).value != "" &&
              verify(ExtractToken(header).value).Some?
    ensures v.Authenticated? ==> verify(ExtractToken(header).value) == Some(v.userId)
  {
    var token := ExtractToken(header);
    if token.None? || token.value == "" then Rejected(Reply(Unauthorized, MsgUnauthorized))
    else
      match verify(token.value)
      case None => Rejected(Reply(Unauthorized, MsgInvalidToken))
      case Some(id) => Authenticated(id)
  }

  /** A well-formed `"Bearer <token>"` header passes the gate exactly when the token library
      accepts the token, and then as the user the token names. */
  lemma BearerHeaderAuthenticates(token: string, verify: string -> Option<UserId>)
    requires ' ' !in token && token != ""
    ensures Authenticate(Some("Bearer " + token), verify) ==
              match verify(token)
              case None => Rejected(Reply(Unauthorized, MsgInvalidToken))
              case Some(id) => Authenticated(id)
  {
    assert "Bearer " + token == "Bearer" + " " + token + [];
    BearerTokenExtracted("Bearer", token, []);
  }

  /** Without a header, with a bare token, or with `"Bearer "` and nothing after it, the
      request is refused as "Unauthorized" before the token library is consulted. */
  lemma MalformedHeaderUnauthorized(header: Option<string>, verify: string -> Option<UserId>)
    requires header == None || header == Some("Bearer ") || (header.Some? && ' ' !in header.value)
    ensures Authenticate(header, verify) == Rejected(Reply(Unauthorized, MsgUnauthorized))
  {
    if header == Some("Bearer ") {
      assert "Bearer " == "Bearer" + " " + [] + [];
      BearerTokenExtracted("Bearer", [], []);
    } else if header.Some? {
      NoSpaceNoToken(header.value);
    }
  }

  /** The `lowercase: true` setter of the user schema's e-mail field, on ASCII letters. */
  function LowerChar(c: char): char
  {
    if 'A' <= c <= 'Z' then (c as int - 'A' as int + 'a' as int) as char else c
  }

  /** The result has no upper-case ASCII letter; each upper-case letter of the input becomes
      the letter 32 code points above it, and every other character is kept. */
  function Lower(s: string): (r: string)
    ensures |r| == |s|
    ensures forall i :: 0 <= i < |r| ==> !('A' <= r[i] <= 'Z')
    ensures forall i :: 0 <= i < |s| && !('A' <= s[i] <= 'Z') ==> r[i] == s[i]
    ensures forall i :: 0 <= i < |s| && 'A' <= s[i] <= 'Z' ==> r[i] as int == s[i] as int + 32
  {
    seq(|s|, i requires 0 <= i < |s| => LowerChar(s[i]))
  }

  /** Lower-casing an address that is already stored lower-cased changes nothing, so a
      stored address matches itself when it is queried again. */
  lemma LowerIdempotent(s: string)
    ensures Lower(Lower(s)) == Lower(s)
  {
  }
}
