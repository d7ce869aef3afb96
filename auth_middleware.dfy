/**
 * `verifyAuth` (server/src/middleware/authMiddleware.js): the decision that either
 * admits a request with the user id of its bearer token or answers 401. Token
 * verification is a given function.
 */
module AuthMiddleware {
  import opened Wrappers
  import opened Js

  /** `jwt.verify(token, JWT_SECRET)`: the token's `userId` claim (Undefined when it
      has none), or the message of the error it throws. */
  type Verifier = string -> Result<Value, string>

  /** `Admit`: `req.user = { userId }` and `next()` is called once; `Reject`: the
      401 answer, and `next` is not called. */
  datatype Outcome = Admit(userId: string) | Reject(status: int, error: string)

  const MissingMessage := "Authorization header missing"
  const FormatMessage := "Invalid Authorization header format"
  const NoTokenMessage := "Token not provided"
  const PayloadMessage := "Invalid token payload"
  const DefaultMessage := "Unauthorized"
  const Scheme := "Bearer "

  /** `verifyAuth` */
  function VerifyAuth(header: Value, verify: Verifier): (r: Outcome)
    ensures r.Reject? ==> r.status == 401
  {
    if !Truthy(header) || !header.Str? then Reject(401, MissingMessage)
    else
      var parts := Split(header.s, ' ');
      if |parts| != 2 || parts[0] != "Bearer" then Reject(401, FormatMessage)
      else if parts[1] == "" then Reject(401, NoTokenMessage)
      else match verify(parts[1])
        case Err(message) => Reject(401, if message == "" then DefaultMessage else message)
        case Ok(claim) => if !Truthy(claim) then Reject(401, PayloadMessage) else Admit(ToText(claim))
  }

  /** A header of the accepted shape: "Bearer ", then a token with no space in it. */
  predicate WellFormed(h: string) {
    StartsWith(h, Scheme) && forall k :: |Scheme| <= k < |h| ==> h[k] != ' '
  }

  /** Splitting on a space yields exactly "Bearer" and one more part precisely when
      the header is well formed, and that part is what follows "Bearer ". */
  lemma {:induction false} SplitBearer(h: string)
    ensures var parts := Split(h, ' ');
            (|parts| == 2 && parts[0] == "Bearer") <==> WellFormed(h)
    ensures WellFormed(h) ==> Split(h, ' ') == ["Bearer", h[|Scheme|..]]
  {
    if WellFormed(h) {
      assert h[..6] == "Bearer" && h[6] == ' ';
      SplitOnce(h, ' ', 6);
    }
    var parts := Split(h, ' ');
    if |parts| == 2 && parts[0] == "Bearer" {
      if forall k :: 0 <= k < |h| ==> h[k] != ' ' {
        SplitWithout(h, ' ');
      } else {
        var i :| 0 <= i < |h| && h[i] == ' ';
        if j :| 0 <= j < |h| && j != i && h[j] == ' ' {
          if i < j {
            SplitTwice(h, ' ', i, j);
          } else {
            SplitTwice(h, ' ', j, i);
          }
        } else {
          SplitOnce(h, ' ', i);
          assert h[..i] == "Bearer";
          assert i == 6;
        }
      }
    }
  }

  /** The whole decision, without splitting: which header gets which answer. The
      cases cover every header. */
  lemma VerifyAuthDecision(header: Value, verify: Verifier)
    ensures var r := VerifyAuth(header, verify);
            && (!Truthy(header) || !header.Str? ==> r == Reject(401, MissingMessage))
            && (header.Str? && header.s != "" && !WellFormed(header.s) ==> r == Reject(401, FormatMessage))
            && (header == Str(Scheme) ==> r == Reject(401, NoTokenMessage))
            && (header.Str? && WellFormed(header.s) && header.s != Scheme ==>
                  var token := header.s[|Scheme|..];
                  && (verify(token).Err? ==>
                        r == Reject(401, if verify(token).error == "" then DefaultMessage else verify(token).error))
                  && (verify(token).Ok? && !Truthy(verify(token).value) ==> r == Reject(401, PayloadMessage))
                  && (verify(token).Ok? && Truthy(verify(token).value) ==> r == Admit(ToText(verify(token).value))))
  {
    if header.Str? {
      SplitBearer(header.s);
      if WellFormed(header.s) && header.s[|Scheme|..] == "" {
        assert header.s == header.s[..|Scheme|] + header.s[|Scheme|..];
      }
    }
  }

  /** A request is admitted exactly when its header is "Bearer " and a non-empty
      token without spaces, the token verifies, and its `userId` claim is truthy;
      the user id passed on is that claim as a string. */
  lemma AdmitExactly(header: Value, verify: Verifier)
    ensures VerifyAuth(header, verify).Admit? <==>
              && header.Str? && WellFormed(header.s) && |header.s| > |Scheme|
              && verify(header.s[|Scheme|..]).Ok? && Truthy(verify(header.s[|Scheme|..]).value)
    ensures VerifyAuth(header, verify).Admit? ==>
              VerifyAuth(header, verify).userId == ToText(verify(header.s[|Scheme|..]).value)
  {
    if header.Str? {
      SplitBearer(header.s);
    }
  }

  /** Two spaces after "Bearer" are refused as a malformed header, as is a scheme
      written in another letter case. */
  lemma StrictFormat(token: string, verify: Verifier)
    ensures VerifyAuth(Str("Bearer  " + token), verify) == Reject(401, FormatMessage)
    ensures VerifyAuth(Str("bearer " + token), verify) == Reject(401, FormatMessage)
  {
    SplitBearer("Bearer  " + token);
    assert ("Bearer  " + token)[7] == ' ';
    SplitBearer("bearer " + token);
    assert ("bearer " + token)[..7] != Scheme by {
      assert ("bearer " + token)[0] != Scheme[0];
    }
  }
}
