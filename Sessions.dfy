/**
 * The session manager's refresh (`refresh_session`): the persisted session
 * (session.json) is renewed from the refresh endpoint's answer. The HTTP
 * exchange is an input: the reply the endpoint gave, or a transport failure.
 */
module Sessions {
  import opened Wrappers

  /** The persisted identity: the token pair of one auth exchange plus the player's id and name. */
  datatype Session = Session(accessToken: string, clientToken: string, uuid: string, username: string)

  /** The JSON body `POST /refresh` is sent with. */
  datatype RefreshRequest = RefreshRequest(accessToken: string, clientToken: string, requestUser: bool)

  /**
   * The fields of a reply body the launcher reads; a field is `None` when the
   * key (or the "selectedProfile" object holding it) is missing.
   */
  datatype ReplyBody = ReplyBody(
    accessToken: Option<string>,
    profileId: Option<string>,
    profileName: Option<string>,
    errorMessage: Option<string>)

  /** The endpoint's answer: a status and a body (`None` when it is not a JSON object), or a transport error. */
  datatype AuthReply = TransportError | Reply(status: int, body: Option<ReplyBody>)

  /** The message shown for a rejection whose body carries no "errorMessage". */
  const UnknownErrorMessage: string := "Неизвестная ошибка"

  /** What the user is told. */
  datatype RefreshOutcome =
    | NoSession                  // "log in with login and password first"
    | Refreshed(username: string)
    | Rejected(message: string)  // non-200 reply: the server's errorMessage
    | RequestFailed              // any exception: transport, unreadable body, missing key

  /** A 200 reply that carries the new token and the selected profile. */
  predicate Granted(reply: AuthReply)
  {
    && reply.Reply? && reply.status == 200 && reply.body.Some?
    && reply.body.value.accessToken.Some?
    && reply.body.value.profileId.Some?
    && reply.body.value.profileName.Some?
  }

  /** A non-200 reply whose body could be read. */
  predicate RejectedWithBody(reply: AuthReply)
  {
    reply.Reply? && reply.status != 200 && reply.body.Some?
  }

  /** session.json, `None` when the file is absent. */
  class SessionStore {
    var saved: Option<Session>

    /** The store as found on disk (`load_session`). */
    constructor (saved: Option<Session>)
      ensures this.saved == saved
    {
      this.saved := saved;
    }

    /**
     * `refresh_session`: without a saved session nothing is sent and nothing
     * changes; otherwise the saved token pair is sent, and only a granted
     * reply changes the file: access token, uuid and username are replaced,
     * the client token is kept. A failed refresh never drops the session.
     */
    method Refresh(reply: AuthReply) returns (sent: Option<RefreshRequest>, outcome: RefreshOutcome)
      modifies this
      ensures old(saved).None? ==> sent == None && outcome == NoSession
      ensures old(saved).Some? ==>
                sent == Some(RefreshRequest(old(saved).value.accessToken, old(saved).value.clientToken, true))
      ensures outcome.Refreshed? <==> old(saved).Some? && Granted(reply)
      ensures outcome.Refreshed? ==>
                && saved == Some(Session(reply.body.value.accessToken.value,
                                         old(saved).value.clientToken,
                                         reply.body.value.profileId.value,
                                         reply.body.value.profileName.value))
                && outcome.username == reply.body.value.profileName.value
      ensures !outcome.Refreshed? ==> saved == old(saved)
      ensures old(saved).Some? && RejectedWithBody(reply) ==>
                outcome == Rejected(reply.body.value.errorMessage.GetOr(UnknownErrorMessage))
      ensures old(saved).Some? && !Granted(reply) && !RejectedWithBody(reply) ==> outcome == RequestFailed
    {
      if saved.None? {
        return None, NoSession;
      }
      var sess := saved.value;
      sent := Some(RefreshRequest(sess.accessToken, sess.clientToken, true));
      if reply.TransportError? || reply.body.None? {
        return sent, RequestFailed;
      }
      var d := reply.body.value;
      if reply.status != 200 {
        return sent, Rejected(d.errorMessage.GetOr(UnknownErrorMessage));
      }
      if d.accessToken.None? || d.profileId.None? || d.profileName.None? {
        return sent, RequestFailed;
      }
      sess := sess.(accessToken := d.accessToken.value, uuid := d.profileId.value, username := d.profileName.value);
      saved := Some(sess);
      outcome := Refreshed(sess.username);
    }
  }
}
