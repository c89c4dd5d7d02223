/**
 * The two persisted record shapes: an issued identifier (UICRecord) and an
 * in-progress conversation (ConversationSession), with their defaults and the
 * two computed properties is_expired and is_complete.
 *
 * Times are integers counting seconds; the caller supplies "now".
 */
module Models {
  import opened Wrappers

  /** The five answers in question order, raw or normalized. */
  datatype Fields = Fields(
    firstName: string,   // answer to question 1
    lastName: string,    // answer to question 2
    birthYear: string,   // answer to question 3
    motherInit: string,  // answer to question 4
    healthZone: string)  // answer to question 5

  /** A row of the uic_records table; its position in the table stands for its id. */
  datatype UicRecord = UicRecord(
    uicCode: string,
    phoneNumber: string,
    normalized: Fields,
    inputHash: string,
    createdAt: int,
    lastRequestedAt: int,
    isActive: bool,
    notes: Option<string>,
    requestCount: int)

  /**
   * A row of the conversation_sessions table. The answers hold every
   * attribute set on the row by name, so that a name the table has no column
   * for is as visible as one it has.
   */
  datatype ConversationSession = ConversationSession(
    phoneNumber: string,
    currentStep: int,
    answers: map<string, string>,
    createdAt: int,
    updatedAt: int,
    expiresAt: int,
    language: string)

  const SecondsPerMinute := 60

  /** The columns of conversation_sessions meant to hold the five answers. */
  const AnswerColumns: seq<string> := ["first_name", "last_name", "birth_year", "mother_init", "health_zone"]

  /** A new identifier row: active, requested once, no notes. */
  function NewUicRecord(code: string, phone: string, normalized: Fields, inputHash: string, now: int): (r: UicRecord)
    ensures r.isActive && r.requestCount == 1 && r.notes == None
    ensures r.createdAt == now && r.lastRequestedAt == now
  {
    UicRecord(code, phone, normalized, inputHash, now, now, true, None, 1)
  }

  /** A new session: at the first question, no answers, expiring timeoutMinutes from now. */
  function NewSession(phone: string, language: string, now: int, timeoutMinutes: int): (s: ConversationSession)
    ensures s.phoneNumber == phone && s.currentStep == 0 && s.answers == map[] && !IsComplete(s)
    ensures forall t :: IsExpired(s, t) <==> t > now + 60 * timeoutMinutes
  {
    var s := ConversationSession(phone, 0, map[], now, now, now + timeoutMinutes * SecondsPerMinute, language);
    assert AnswerColumns[0] !in s.answers;
    s
  }

  /** ConversationSession.is_expired: now is strictly after expires_at. */
  predicate IsExpired(s: ConversationSession, now: int) {
    now > s.expiresAt
  }

  /** ConversationSession.is_complete: all five answer columns are set and non-empty. */
  predicate IsComplete(s: ConversationSession) {
    forall k :: 0 <= k < |AnswerColumns| ==> AnswerColumns[k] in s.answers && s.answers[AnswerColumns[k]] != ""
  }

  /**
   * A fresh session starts at the first question with no answers, stays live
   * through its whole timeout and is expired at every later instant.
   */
  lemma NewSessionLifetime(phone: string, language: string, now: int, timeoutMinutes: int, t: int)
    requires 1 <= timeoutMinutes <= 60
    ensures var s := NewSession(phone, language, now, timeoutMinutes);
      && s.currentStep == 0 && s.answers == map[] && s.phoneNumber == phone
      && !IsComplete(s)
      && (IsExpired(s, t) <==> t > now + 60 * timeoutMinutes)
      && !IsExpired(s, now)
  {
    assert AnswerColumns[0] !in NewSession(phone, language, now, timeoutMinutes).answers;
  }
}
