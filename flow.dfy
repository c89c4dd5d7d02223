/**
 * The conversation state machine (FlowManager): five fixed steps with their
 * validators, a table of sessions keyed by phone number, and the handling of
 * one inbound message at a time.
 *
 * Every message text is the French one the service sends. Time is an
 * integer count of seconds supplied by the caller.
 */
module Flow {
  import opened Wrappers
  import opened Text
  import opened Models

  // ---------------------------------------------------------------- validators

  /** What a validator returns: (True, None), or (False, the message to show). */
  datatype Validation = Accepted | Rejected(message: string)

  const DigitsOnlyMessage := "Veuillez entrer uniquement des chiffres (pas de lettres ou d'espaces)"
  const DigitsTooShortMessage := "Veuillez entrer au moins 1 chiffre"
  const LettersOnlyMessage := "Veuillez entrer uniquement des lettres (pas de chiffres ou de caractères spéciaux)"
  const LettersTooShortMessage := "Veuillez entrer au moins 2 lettres"
  const GenderNotDigitMessage := "Veuillez entrer un chiffre (1, 2, 3 ou 4)"
  const GenderRangeMessage := "Le code de genre doit être 1, 2, 3 ou 4"
  const CityNotLettersMessage := "Le code de ville doit contenir uniquement des lettres"
  const CityLengthMessage := "Le code de ville doit contenir exactement 2 lettres"
  const EmptyAnswerMessage := "Veuillez fournir une réponse"
  const AnswerTooShortMessage := "La réponse est trop courte"

  const GenderCodes: seq<string> := ["1", "2", "3", "4"]

  /**
   * validate_digits_only: the stripped answer must be all digits. Its
   * second check never fires, since str.isdigit() is false on "".
   */
  function ValidateDigitsOnly(answer: string): (r: Validation)
    ensures r == Accepted <==> IsDigit(Strip(answer))
    ensures r != Accepted ==> r == Rejected(DigitsOnlyMessage)
  {
    var a := Strip(answer);
    if !IsDigit(a) then Rejected(DigitsOnlyMessage)
    else if |a| < 1 then Rejected(DigitsTooShortMessage)
    else Accepted
  }

  /** validate_letters_only: at least two letters; a non-letter is reported before shortness. */
  function ValidateLettersOnly(answer: string): (r: Validation)
    ensures r == Accepted <==> IsAlpha(Strip(answer)) && |Strip(answer)| >= 2
    ensures !IsAlpha(Strip(answer)) ==> r == Rejected(LettersOnlyMessage)
    ensures IsAlpha(Strip(answer)) && |Strip(answer)| < 2 ==> r == Rejected(LettersTooShortMessage)
  {
    var a := Strip(answer);
    if !IsAlpha(a) then Rejected(LettersOnlyMessage)
    else if |a| < 2 then Rejected(LettersTooShortMessage)
    else Accepted
  }

  lemma GenderCodesAreDigits()
    ensures forall g :: g in GenderCodes ==> IsDigit(g)
  {
    forall g | g in GenderCodes ensures IsDigit(g) {
      assert g == "1" || g == "2" || g == "3" || g == "4";
    }
  }

  /** validate_gender_code: exactly one of 1, 2, 3, 4; a non-digit is reported first. */
  function ValidateGenderCode(answer: string): (r: Validation)
    ensures r == Accepted <==> Strip(answer) in GenderCodes
    ensures !IsDigit(Strip(answer)) ==> r == Rejected(GenderNotDigitMessage)
    ensures IsDigit(Strip(answer)) && Strip(answer) !in GenderCodes ==> r == Rejected(GenderRangeMessage)
  {
    var a := Strip(answer);
    GenderCodesAreDigits();
    if !IsDigit(a) then Rejected(GenderNotDigitMessage)
    else if a !in GenderCodes then Rejected(GenderRangeMessage)
    else Accepted
  }

  /**
   * validate_city_code: the stripped answer, upper-cased, must be letters and
   * exactly two characters long. Letters are letters before and after
   * upper-casing alike, but the length is taken after it.
   */
  function ValidateCityCode(answer: string): (r: Validation)
    ensures r == Accepted <==> IsAlpha(Strip(answer)) && |Upper(Strip(answer))| == 2
    ensures !IsAlpha(Strip(answer)) ==> r == Rejected(CityNotLettersMessage)
    ensures IsAlpha(Strip(answer)) && |Upper(Strip(answer))| != 2 ==> r == Rejected(CityLengthMessage)
  {
    var a := Upper(Strip(answer));
    UpperKeepsAlpha(Strip(answer));
    if !IsAlpha(a) then Rejected(CityNotLettersMessage)
    else if |a| != 2 then Rejected(CityLengthMessage)
    else Accepted
  }

  /** Without ß, whose upper case is two letters, the city code is exactly two letters. */
  lemma CityCodeIsTwoLetters(answer: string)
    requires '\U{DF}' !in Strip(answer)
    ensures ValidateCityCode(answer) == Accepted <==> IsAlpha(Strip(answer)) && |Strip(answer)| == 2
  {
    UpperLength(Strip(answer));
  }

  /** Stripping leaves "ß" as it is. */
  lemma SharpSIsStripped(answer: string)
    requires |answer| == 1 && answer[0] == '\U{DF}'
    ensures Strip(answer) == answer
  {
    assert IsStripped(answer);
    StripFixesStripped(answer);
  }

  /** "ß" is a letter. */
  lemma SharpSIsAlpha(answer: string)
    requires |answer| == 1 && answer[0] == '\U{DF}'
    ensures IsAlpha(answer)
  {
    assert IsAlphaChar(answer[0]);
  }

  /** The upper case of "ß" is two letters long. */
  lemma SharpSUpperLength(answer: string)
    requires |answer| == 1 && answer[0] == '\U{DF}'
    ensures |Upper(answer)| == 2
  {
    assert answer == [answer[0]];
    UpperLength(answer);
  }

  /** The one-letter answer "ß" passes as a two-letter city code. */
  lemma CityCodeAcceptsSharpS(answer: string)
    requires |answer| == 1 && answer[0] == '\U{DF}'
    ensures ValidateCityCode(answer) == Accepted
  {
    SharpSIsStripped(answer);
    SharpSIsAlpha(answer);
    SharpSUpperLength(answer);
  }

  /** validate_not_empty: something other than whitespace; its second check never fires. */
  function ValidateNotEmpty(answer: string): (r: Validation)
    ensures r == Accepted <==> Strip(answer) != ""
    ensures r != Accepted ==> r == Rejected(EmptyAnswerMessage)
  {
    if answer == "" || Strip(answer) == "" then Rejected(EmptyAnswerMessage)
    else if |Strip(answer)| < 1 then Rejected(AnswerTooShortMessage)
    else Accepted
  }

  // ---------------------------------------------------------------- steps

  datatype ValidatorKind = DigitsOnly | LettersOnly | GenderCode | CityCode | NotEmpty

  function RunValidator(v: ValidatorKind, answer: string): Validation {
    match v
    case DigitsOnly => ValidateDigitsOnly(answer)
    case LettersOnly => ValidateLettersOnly(answer)
    case GenderCode => ValidateGenderCode(answer)
    case CityCode => ValidateCityCode(answer)
    case NotEmpty => ValidateNotEmpty(answer)
  }

  /** What each validator accepts, leaving aside the message it rejects with. */
  predicate Accepts(v: ValidatorKind, answer: string) {
    match v
    case DigitsOnly => IsDigit(Strip(answer))
    case LettersOnly => IsAlpha(Strip(answer)) && |Strip(answer)| >= 2
    case GenderCode => Strip(answer) in GenderCodes
    case CityCode => IsAlpha(Strip(answer)) && |Upper(Strip(answer))| == 2
    case NotEmpty => Strip(answer) != ""
  }

  lemma RunValidatorAccepts(v: ValidatorKind, answer: string)
    ensures RunValidator(v, answer) == Accepted <==> Accepts(v, answer)
  {
  }

  datatype ConversationStep = ConversationStep(
    key: string,
    questionEn: string,
    questionFr: string,
    fieldName: string,          // the attribute the answer is stored under
    validator: Option<ValidatorKind>)

  /** ConversationStep.get_question: the French text for "fr", the English text otherwise. */
  function GetQuestion(step: ConversationStep, language: string): string {
    if language == "fr" then step.questionFr else step.questionEn
  }

  /** ConversationStep.validate: a step without a validator accepts every answer. */
  function Validate(step: ConversationStep, answer: string): (r: Validation)
    ensures step.validator.None? ==> r == Accepted
  {
    match step.validator
    case None => Accepted
    case Some(v) => RunValidator(v, answer)
  }

  /** FlowManager.STEPS. */
  const Steps: seq<ConversationStep> := [
    ConversationStep(
      "last_name_code",
      "Question 1 of 5:\n\nWhat are the first 3 letters of your last name?\n\nExample: MBE",
      "Question 1 sur 5:\n\nQuelles sont les 3 premières lettres de votre nom de famille?\n\nExemple: MBE",
      "last_name_code",
      Some(LettersOnly)),
    ConversationStep(
      "first_name_code",
      "Question 2 of 5:\n\nWhat are the first 3 letters of your first name?\n\nExample: IBR",
      "Question 2 sur 5:\n\nQuelles sont les 3 premières lettres de votre prénom?\n\nExemple: IBR",
      "first_name_code",
      Some(LettersOnly)),
    ConversationStep(
      "birth_year_digit",
      "Question 3 of 5:\n\nWhat is the last digit of your birth year?\n\nExample: 7",
      "Question 3 sur 5:\n\nQuel est le dernier chiffre de votre année de naissance?\n\nExemple: 7 (pour 1997)",
      "birth_year_digit",
      Some(DigitsOnly)),
    ConversationStep(
      "city_code",
      "Question 4 of 5:\n\nWhat is your city code?\n\nExample: DA",
      "Question 4 sur 5:\n\nQuel est le code de votre ville de naissance?\n(2 lettres)\n\nExemple: DA (pour Dakar)",
      "city_code",
      Some(CityCode)),
    ConversationStep(
      "gender_code",
      "Question 5 of 5:\n\nWhat is your gender code?\n\nEnter 1, 2, 3, or 4",
      "Question 5 sur 5:\n\nQuel est votre code de genre?\n\n1 = Homme\n2 = Femme\n3 = Trans\n4 = Autre",
      "gender_code",
      Some(GenderCode))
  ]

  /** The field_name of each step, in order. */
  const FieldNames: seq<string> := ["last_name_code", "first_name_code", "birth_year_digit", "city_code", "gender_code"]

  /** The validator of each step, in order. */
  const Validators: seq<ValidatorKind> := [LettersOnly, LettersOnly, DigitsOnly, CityCode, GenderCode]

  /** Each step stores under its own key and runs a validator, as the two lists above say. */
  lemma StepsShape()
    ensures |Steps| == |FieldNames| == |Validators| == 5
    ensures forall i :: 0 <= i < |Steps| ==>
      Steps[i].key == Steps[i].fieldName == FieldNames[i] && Steps[i].validator == Some(Validators[i])
  {
  }

  /** The five steps store under five different names, none of them one of the session table's answer columns. */
  lemma FieldNamesShape()
    ensures forall i, j :: 0 <= i < j < |FieldNames| ==> FieldNames[i] != FieldNames[j]
    ensures forall i, c :: 0 <= i < |FieldNames| && 0 <= c < |AnswerColumns| ==> FieldNames[i] != AnswerColumns[c]
  {
  }

  /** The current step accepts an answer exactly when its validator does. */
  lemma ValidateStep(i: int, answer: string)
    requires 0 <= i < |FieldNames|
    ensures Validate(Steps[i], answer) == RunValidator(Validators[i], answer)
    ensures Validate(Steps[i], answer) == Accepted <==> Accepts(Validators[i], answer)
  {
    StepsShape();
    RunValidatorAccepts(Validators[i], answer);
  }

  const WelcomeMessageFr :=
    "👋 Bienvenue au Générateur CIU!\n\n"
    + "Je vais vous poser 5 questions pour générer votre Code d'Identification Unique (CIU).\n\n"
    + "📋 Votre CIU est:\n"
    + "• Unique pour vous\n"
    + "• Privé et sécurisé\n"
    + "• Peut être régénéré si nécessaire\n\n"
    + "Tapez RESTART pour recommencer.\n"
    + "Tapez HELP pour de l'aide.\n\n"
    + "Commençons! 🚀"

  const CompletionMessageFr :=
    "✅ Merci! J'ai toutes les informations.\n\n"
    + "Génération de votre CIU sécurisé...\n"
    + "⏳ Veuillez patienter..."

  const HelpText :=
    "📖 Aide:\n\n"
    + "Commandes:\n"
    + "• RESTART - Recommencer depuis le début\n"
    + "• HELP - Afficher ce message\n\n"
    + "Je vais vous poser 5 questions pour générer votre CIU.\n"
    + "Répondez à chaque question et appuyez sur envoyer."

  /** The welcome text followed by the first question, as RESTART and an empty first message get. */
  function WelcomeReply(): string {
    WelcomeMessageFr + "\n\n" + GetQuestion(Steps[0], "fr")
  }

  // ---------------------------------------------------------------- sessions

  type Store = map<string, ConversationSession>

  /** The names the answers to the first n steps are stored under. */
  function FieldsBefore(n: int): set<string>
    requires 0 <= n <= |FieldNames|
  {
    set k | 0 <= k < n :: FieldNames[k]
  }

  /** An answer as the flow stores it for step k: stripped, and accepted by that step. */
  predicate IsStoredAnswer(k: int, a: string)
    requires 0 <= k < |FieldNames|
  {
    IsStripped(a) && Accepts(Validators[k], a)
  }

  /**
   * A session as the flow leaves it: filed under its own phone number, at
   * one of the five questions, holding exactly the answers to the earlier
   * questions, each one accepted.
   */
  predicate SessionValid(phone: string, s: ConversationSession) {
    && s.phoneNumber == phone
    && 0 <= s.currentStep < |FieldNames|
    && AnswersValid(s.answers, s.currentStep)
  }

  /** Exactly the answers to the first n steps, each stored as the flow stores it. */
  predicate AnswersValid(answers: map<string, string>, n: int)
    requires 0 <= n <= |FieldNames|
  {
    && answers.Keys == FieldsBefore(n)
    && forall k :: 0 <= k < n ==> IsStoredAnswer(k, answers[FieldNames[k]])
  }

  predicate StoreValid(store: Store) {
    forall phone :: phone in store ==> SessionValid(phone, store[phone])
  }

  /** The names of all five answers. */
  lemma AllFieldNames()
    ensures FieldsBefore(|FieldNames|) == {"last_name_code", "first_name_code", "birth_year_digit", "city_code", "gender_code"}
  {
    var all := FieldsBefore(|FieldNames|);
    assert FieldNames[0] in all && FieldNames[1] in all && FieldNames[2] in all;
    assert FieldNames[3] in all && FieldNames[4] in all;
  }

  /** A session the flow keeps is never complete: it never writes the columns is_complete reads. */
  lemma FlowSessionsNeverComplete(store: Store, phone: string)
    requires StoreValid(store) && phone in store
    ensures !IsComplete(store[phone])
  {
    FieldNamesShape();
    var s := store[phone];
    assert AnswerColumns[0] !in FieldsBefore(s.currentStep);
  }

  /** FlowManager.get_or_create_session: the live session, or a new one in place of a missing or expired one. */
  function GetOrCreate(store: Store, phone: string, language: string, now: int, timeoutMinutes: int): (r: (ConversationSession, Store))
    ensures r.1 == store[phone := r.0]
    ensures timeoutMinutes >= 0 ==> !IsExpired(r.0, now)
  {
    if phone in store && !IsExpired(store[phone], now) then (store[phone], store)
    else
      var s := NewSession(phone, language, now, timeoutMinutes);
      (s, store[phone := s])
  }

  /**
   * get_or_create_session always hands back a live, valid session and files
   * it under the phone number. The table is left as it was exactly when the
   * phone's session was live; otherwise the session is a new one at the
   * first question, living timeoutMinutes from now.
   */
  lemma GetOrCreateKeepsStoreValid(store: Store, phone: string, language: string, now: int, timeoutMinutes: int)
    requires StoreValid(store) && 1 <= timeoutMinutes <= 60
    ensures var out := GetOrCreate(store, phone, language, now, timeoutMinutes);
      && StoreValid(out.1) && out.1 == store[phone := out.0]
      && !IsExpired(out.0, now)
      && (out.1 == store <==> phone in store && !IsExpired(store[phone], now))
      && (out.1 != store ==>
            out.0.currentStep == 0 && out.0.answers == map[] && out.0.language == language
            && out.0.expiresAt == now + 60 * timeoutMinutes)
  {
    var s := NewSession(phone, language, now, timeoutMinutes);
    assert s.answers.Keys == FieldsBefore(0);
    if phone in store && IsExpired(store[phone], now) {
      assert store[phone := s][phone] != store[phone];
    }
  }

  // ---------------------------------------------------------------- messages

  /** What process_message returns. */
  datatype FlowResult = FlowResult(response: string, isComplete: bool, collectedData: Option<map<string, string>>)

  /** A reply that does not end the conversation. */
  function Reply(text: string): FlowResult {
    FlowResult(text, false, None)
  }

  /** The collected_data dictionary: the five stored answers under their step names. */
  function Collect(answers: map<string, string>): (data: map<string, string>)
    requires forall k :: 0 <= k < |FieldNames| ==> FieldNames[k] in answers
    ensures data.Keys == FieldsBefore(|FieldNames|)
    ensures forall k :: 0 <= k < |FieldNames| ==> data[FieldNames[k]] == answers[FieldNames[k]]
  {
    assert FieldNames[0] in answers && FieldNames[1] in answers && FieldNames[2] in answers;
    assert FieldNames[3] in answers && FieldNames[4] in answers;
    AllFieldNames();
    map[
      "last_name_code" := answers["last_name_code"],
      "first_name_code" := answers["first_name_code"],
      "birth_year_digit" := answers["birth_year_digit"],
      "city_code" := answers["city_code"],
      "gender_code" := answers["gender_code"]]
  }

  /** The session after the answer m to its current question is accepted: stored, and one step further. */
  function Advance(s: ConversationSession, m: string, now: int): (r: ConversationSession)
    requires 0 <= s.currentStep < |FieldNames|
    ensures r.currentStep == s.currentStep + 1
    ensures r.phoneNumber == s.phoneNumber && r.expiresAt == s.expiresAt && r.language == s.language
  {
    s.(answers := s.answers[FieldNames[s.currentStep] := m], updatedAt := now, currentStep := s.currentStep + 1)
  }

  /**
   * The part of process_message after the session is found: validate the
   * (stripped) message against the current step; re-ask on failure; store,
   * advance and ask the next question on success; after the fifth answer,
   * delete the session and hand back the five answers.
   */
  function AnswerStep(store: Store, phone: string, s: ConversationSession, m: string, now: int): (r: (FlowResult, Store))
    requires SessionValid(phone, s)
    ensures Validate(Steps[s.currentStep], m) != Accepted ==> r.1 == store
    ensures Validate(Steps[s.currentStep], m) == Accepted && s.currentStep + 1 < |FieldNames| ==>
      r.1 == store[phone := Advance(s, m, now)]
    ensures Validate(Steps[s.currentStep], m) == Accepted && s.currentStep + 1 == |FieldNames| ==>
      r.1 == store - {phone}
  {
    StepsShape();
    var step := Steps[s.currentStep];
    match Validate(step, m)
    case Rejected(e) =>
      (Reply("❌ " + e + "\n\n" + GetQuestion(step, s.language)), store)
    case Accepted =>
      var next := Advance(s, m, now);
      if next.currentStep >= |Steps| then
        assert next.answers.Keys == FieldsBefore(|FieldNames|);
        (FlowResult(CompletionMessageFr, true, Some(Collect(next.answers))), store - {phone})
      else
        (Reply("✅ Compris!\n\n" + GetQuestion(Steps[next.currentStep], next.language)), store[phone := next])
  }

  /** FlowManager.process_message on the session table. */
  function Transition(store: Store, phone: string, message: string, now: int, timeoutMinutes: int): (r: (FlowResult, Store))
    requires StoreValid(store) && 1 <= timeoutMinutes <= 60
    ensures r.1.Keys <= store.Keys + {phone}
  {
    var m := Strip(message);
    if Upper(m) == "RESTART" then (Reply(WelcomeReply()), store - {phone})
    else if Upper(m) == "HELP" then (Reply(HelpText), store)
    else
      GetOrCreateKeepsStoreValid(store, phone, "fr", now, timeoutMinutes);
      Respond(GetOrCreate(store, phone, "fr", now, timeoutMinutes), phone, m, now)
  }

  /** What process_message does once it holds the phone's session and the table it sits in. */
  function Respond(got: (ConversationSession, Store), phone: string, m: string, now: int): (r: (FlowResult, Store))
    requires SessionValid(phone, got.0)
    ensures r.1.Keys <= got.1.Keys + {phone}
  {
    if got.0.currentStep == 0 && m == "" then (Reply(WelcomeReply()), got.1)
    else AnswerStep(got.1, phone, got.0, m, now)
  }

  /** A message that is neither command once stripped and upper-cased. */
  predicate IsPlainMessage(message: string) {
    Upper(Strip(message)) != "RESTART" && Upper(Strip(message)) != "HELP"
  }

  /**
   * A phone with no live session, whether it never wrote, its session expired
   * or it just sent RESTART, has its first non-empty message checked as the
   * answer to question 1 of a new French session.
   */
  lemma NewUserAnswersQuestionOne(store: Store, phone: string, message: string, now: int, timeoutMinutes: int)
    requires StoreValid(store) && 1 <= timeoutMinutes <= 60
    requires phone !in store || IsExpired(store[phone], now)
    requires IsPlainMessage(message) && Strip(message) != ""
    ensures var s := NewSession(phone, "fr", now, timeoutMinutes);
      Transition(store, phone, message, now, timeoutMinutes) == AnswerStep(store[phone := s], phone, s, Strip(message), now)
  {
    GetOrCreateKeepsStoreValid(store, phone, "fr", now, timeoutMinutes);
  }

  /** After RESTART, the next non-empty message that is not a command answers question 1 of a new session. */
  lemma MessageAfterRestartAnswersQuestionOne(store: Store, phone: string, restart: string, message: string,
                                              now: int, later: int, timeoutMinutes: int)
    requires StoreValid(store) && 1 <= timeoutMinutes <= 60
    requires Upper(Strip(restart)) == "RESTART"
    requires IsPlainMessage(message) && Strip(message) != ""
    ensures var after := Transition(store, phone, restart, now, timeoutMinutes).1;
      var s := NewSession(phone, "fr", later, timeoutMinutes);
      && StoreValid(after)
      && Transition(after, phone, message, later, timeoutMinutes) == AnswerStep(after[phone := s], phone, s, Strip(message), later)
  {
    RestartDeletesSession(store, phone, restart, now, timeoutMinutes);
    var after := store - {phone};
    assert StoreValid(after);
    NewUserAnswersQuestionOne(after, phone, message, later, timeoutMinutes);
  }

  /** HELP, in any case and with any surrounding blanks, answers with the help text and changes nothing. */
  lemma HelpChangesNothing(store: Store, phone: string, message: string, now: int, timeoutMinutes: int)
    requires StoreValid(store) && 1 <= timeoutMinutes <= 60
    requires Upper(Strip(message)) == "HELP"
    ensures Transition(store, phone, message, now, timeoutMinutes) == (Reply(HelpText), store)
  {
  }

  /** RESTART deletes the phone's session, creates none, and answers with the welcome and question 1. */
  lemma RestartDeletesSession(store: Store, phone: string, message: string, now: int, timeoutMinutes: int)
    requires StoreValid(store) && 1 <= timeoutMinutes <= 60
    requires Upper(Strip(message)) == "RESTART"
    ensures var out := Transition(store, phone, message, now, timeoutMinutes);
      out.0 == Reply(WelcomeReply()) && phone !in out.1 && out.1 == store - {phone}
  {
  }

  lemma AnswerStepIsolates(store: Store, phone: string, s: ConversationSession, m: string, now: int, other: string)
    requires SessionValid(phone, s) && other != phone
    ensures var after := AnswerStep(store, phone, s, m, now).1;
      (other in after <==> other in store) && (other in store ==> after[other] == store[other])
  {
  }

  lemma RespondIsolates(got: (ConversationSession, Store), phone: string, m: string, now: int, other: string)
    requires SessionValid(phone, got.0) && other != phone
    ensures var after := Respond(got, phone, m, now).1;
      (other in after <==> other in got.1) && (other in got.1 ==> after[other] == got.1[other])
  {
    if !(got.0.currentStep == 0 && m == "") {
      AnswerStepIsolates(got.1, phone, got.0, m, now, other);
    }
  }

  /** Every message leaves the sessions of all other phone numbers as they were. */
  lemma TransitionIsolatesPhones(store: Store, phone: string, message: string, now: int, timeoutMinutes: int, other: string)
    requires StoreValid(store) && 1 <= timeoutMinutes <= 60 && other != phone
    ensures var after := Transition(store, phone, message, now, timeoutMinutes).1;
      (other in after <==> other in store) && (other in store ==> after[other] == store[other])
  {
    var m := Strip(message);
    var after := Transition(store, phone, message, now, timeoutMinutes).1;
    if Upper(m) == "RESTART" {
      assert after == store - {phone};
    } else if Upper(m) == "HELP" {
      assert after == store;
    } else {
      GetOrCreateKeepsStoreValid(store, phone, "fr", now, timeoutMinutes);
      var got := GetOrCreate(store, phone, "fr", now, timeoutMinutes);
      RespondIsolates(got, phone, m, now, other);
    }
  }

  /** Filing a valid session under its own phone number keeps the table valid. */
  lemma StoreValidUpdate(store: Store, phone: string, s: ConversationSession)
    requires StoreValid(store) && SessionValid(phone, s)
    ensures StoreValid(store[phone := s])
  {
  }

  /** Storing an accepted, stripped answer keeps the session table valid. */
  lemma AnswerStepKeepsStoreValid(store: Store, phone: string, s: ConversationSession, m: string, now: int)
    requires StoreValid(store) && phone in store && store[phone] == s
    requires IsStripped(m)
    ensures StoreValid(AnswerStep(store, phone, s, m, now).1)
  {
    var i := s.currentStep;
    ValidateStep(i, m);
    if Validate(Steps[i], m) == Accepted && i + 1 < |FieldNames| {
      AdvanceKeepsAnswersValid(phone, s, m, now);
      StoreValidUpdate(store, phone, Advance(s, m, now));
    }
  }

  /** process_message keeps every session valid, so its step index is always in range. */
  lemma TransitionKeepsStoreValid(store: Store, phone: string, message: string, now: int, timeoutMinutes: int)
    requires StoreValid(store) && 1 <= timeoutMinutes <= 60
    ensures StoreValid(Transition(store, phone, message, now, timeoutMinutes).1)
  {
    var m := Strip(message);
    if Upper(m) != "RESTART" && Upper(m) != "HELP" {
      GetOrCreateKeepsStoreValid(store, phone, "fr", now, timeoutMinutes);
      var got := GetOrCreate(store, phone, "fr", now, timeoutMinutes);
      AnswerStepKeepsStoreValid(got.1, phone, got.0, m, now);
    }
  }

  /** A live session the message is an answer for: not a command, and not the empty first message. */
  predicate AnswersLiveSession(store: Store, phone: string, message: string, now: int) {
    && IsPlainMessage(message)
    && phone in store && !IsExpired(store[phone], now)
    && !(store[phone].currentStep == 0 && Strip(message) == "")
  }

  /** An empty message from a phone with no conversation in progress gets the welcome and question 1. */
  lemma EmptyMessageAtStartWelcomes(store: Store, phone: string, message: string, now: int, timeoutMinutes: int)
    requires StoreValid(store) && 1 <= timeoutMinutes <= 60
    requires Strip(message) == ""
    requires phone !in store || IsExpired(store[phone], now) || store[phone].currentStep == 0
    ensures var out := Transition(store, phone, message, now, timeoutMinutes);
      && out.0 == Reply(WelcomeReply())
      && out.1 == GetOrCreate(store, phone, "fr", now, timeoutMinutes).1
      && phone in out.1 && out.1[phone].currentStep == 0
  {
    assert Upper(Strip(message)) == [];
    GetOrCreateKeepsStoreValid(store, phone, "fr", now, timeoutMinutes);
  }

  /** A message answering a live session goes straight to that session's current step. */
  lemma TransitionOnLiveSession(store: Store, phone: string, message: string, now: int, timeoutMinutes: int)
    requires StoreValid(store) && 1 <= timeoutMinutes <= 60
    requires AnswersLiveSession(store, phone, message, now)
    ensures Transition(store, phone, message, now, timeoutMinutes) == AnswerStep(store, phone, store[phone], Strip(message), now)
  {
    assert GetOrCreate(store, phone, "fr", now, timeoutMinutes) == (store[phone], store);
  }

  /** A rejected answer re-asks the same question behind the validator's message and changes no session. */
  lemma RejectedAnswerKeepsSession(store: Store, phone: string, message: string, now: int, timeoutMinutes: int, e: string)
    requires StoreValid(store) && 1 <= timeoutMinutes <= 60
    requires AnswersLiveSession(store, phone, message, now)
    requires Validate(Steps[store[phone].currentStep], Strip(message)) == Rejected(e)
    ensures var s := store[phone];
      Transition(store, phone, message, now, timeoutMinutes)
        == (Reply("❌ " + e + "\n\n" + GetQuestion(Steps[s.currentStep], s.language)), store)
  {
    TransitionOnLiveSession(store, phone, message, now, timeoutMinutes);
  }

  /** An accepted answer to one of the first four questions, on the session it belongs to. */
  lemma AnswerStepAdvances(store: Store, phone: string, s: ConversationSession, m: string, now: int)
    requires SessionValid(phone, s) && s.currentStep + 1 < |FieldNames|
    requires Validate(Steps[s.currentStep], m) == Accepted
    ensures AnswerStep(store, phone, s, m, now)
      == (Reply("✅ Compris!\n\n" + GetQuestion(Steps[s.currentStep + 1], s.language)), store[phone := Advance(s, m, now)])
  {
  }

  /**
   * An accepted answer to questions 1 to 4 is stored under the step's name,
   * moves the session one step on without extending its expiry, and is
   * acknowledged with the next question.
   */
  lemma AcceptedAnswerAdvances(store: Store, phone: string, message: string, now: int, timeoutMinutes: int)
    requires StoreValid(store) && 1 <= timeoutMinutes <= 60
    requires AnswersLiveSession(store, phone, message, now)
    requires store[phone].currentStep + 1 < |FieldNames|
    requires Validate(Steps[store[phone].currentStep], Strip(message)) == Accepted
    ensures var s := store[phone];
      var next := Advance(s, Strip(message), now);
      && Transition(store, phone, message, now, timeoutMinutes)
           == (Reply("✅ Compris!\n\n" + GetQuestion(Steps[s.currentStep + 1], s.language)), store[phone := next])
      && next.currentStep == s.currentStep + 1
      && next.answers == s.answers[FieldNames[s.currentStep] := Strip(message)]
      && next.expiresAt == s.expiresAt && next.createdAt == s.createdAt && next.updatedAt == now
  {
    var s, m := store[phone], Strip(message);
    assert SessionValid(phone, s);
    TransitionOnLiveSession(store, phone, message, now, timeoutMinutes);
    AnswerStepAdvances(store, phone, s, m, now);
  }

  /** Accepting an answer keeps every stored answer stripped and accepted by its own step. */
  lemma AdvanceKeepsAnswersValid(phone: string, s: ConversationSession, m: string, now: int)
    requires SessionValid(phone, s) && IsStoredAnswer(s.currentStep, m)
    ensures AnswersValid(Advance(s, m, now).answers, s.currentStep + 1)
  {
    var i := s.currentStep;
    var answers := Advance(s, m, now).answers;
    assert answers.Keys == FieldsBefore(i + 1);
    FieldNamesShape();
    forall k | 0 <= k < i + 1 ensures IsStoredAnswer(k, answers[FieldNames[k]]) {
      if k < i {
        assert answers[FieldNames[k]] == s.answers[FieldNames[k]];
      }
    }
  }

  /** Collecting all five valid answers hands each one back unchanged, under its own name. */
  lemma CollectKeepsAnswers(answers: map<string, string>)
    requires AnswersValid(answers, |FieldNames|)
    ensures forall k :: 0 <= k < |FieldNames| ==> FieldNames[k] in answers
    ensures var data := Collect(answers);
      && data.Keys == FieldsBefore(|FieldNames|)
      && (forall k :: 0 <= k < |FieldNames| ==> IsStoredAnswer(k, data[FieldNames[k]]))
  {
    assert forall k :: 0 <= k < |FieldNames| ==> FieldNames[k] in FieldsBefore(|FieldNames|);
  }

  /** The answers collected after the fifth one: one under each step's name, each stripped and accepted. */
  lemma CollectedAnswersValid(phone: string, s: ConversationSession, m: string, now: int)
    requires SessionValid(phone, s) && s.currentStep + 1 == |FieldNames|
    requires IsStoredAnswer(s.currentStep, m)
    ensures var answers := Advance(s, m, now).answers;
      && (forall k :: 0 <= k < |FieldNames| ==> FieldNames[k] in answers)
      && var data := Collect(answers);
      && data.Keys == FieldsBefore(|FieldNames|)
      && (forall k :: 0 <= k < |FieldNames| ==> IsStoredAnswer(k, data[FieldNames[k]]))
      && data[FieldNames[|FieldNames| - 1]] == m
  {
    AdvanceKeepsAnswersValid(phone, s, m, now);
    CollectKeepsAnswers(Advance(s, m, now).answers);
  }

  /** The fifth accepted answer deletes the session and hands back the collected answers. */
  lemma AnswerStepCompletes(store: Store, phone: string, s: ConversationSession, m: string, now: int)
    requires SessionValid(phone, s) && s.currentStep + 1 == |FieldNames|
    requires Validate(Steps[s.currentStep], m) == Accepted
    requires forall k :: 0 <= k < |FieldNames| ==> FieldNames[k] in Advance(s, m, now).answers
    ensures AnswerStep(store, phone, s, m, now)
      == (FlowResult(CompletionMessageFr, true, Some(Collect(Advance(s, m, now).answers))), store - {phone})
  {
  }

  /**
   * An accepted answer to question 5 ends the conversation: the session is
   * deleted and the reply carries the five answers, each one stripped and
   * accepted by its own step.
   */
  lemma LastAnswerCompletes(store: Store, phone: string, message: string, now: int, timeoutMinutes: int)
    requires StoreValid(store) && 1 <= timeoutMinutes <= 60
    requires AnswersLiveSession(store, phone, message, now)
    requires store[phone].currentStep + 1 == |FieldNames|
    requires Validate(Steps[store[phone].currentStep], Strip(message)) == Accepted
    ensures var out := Transition(store, phone, message, now, timeoutMinutes);
      && out.0.response == CompletionMessageFr && out.0.isComplete
      && out.1 == store - {phone}
      && out.0.collectedData.Some?
      && out.0.collectedData.value.Keys == FieldsBefore(|FieldNames|)
      && (forall k :: 0 <= k < |FieldNames| ==> IsStoredAnswer(k, out.0.collectedData.value[FieldNames[k]]))
      && out.0.collectedData.value[FieldNames[|FieldNames| - 1]] == Strip(message)
  {
    var s := store[phone];
    var m := Strip(message);
    TransitionOnLiveSession(store, phone, message, now, timeoutMinutes);
    ValidateStep(s.currentStep, m);
    CollectedAnswersValid(phone, s, m, now);
    AnswerStepCompletes(store, phone, s, m, now);
  }

  /** get_or_create_session treats an expired session as a missing one. */
  lemma GetOrCreateForgetsExpired(store: Store, phone: string, language: string, now: int, timeoutMinutes: int)
    requires phone in store && IsExpired(store[phone], now)
    ensures GetOrCreate(store, phone, language, now, timeoutMinutes) == GetOrCreate(store - {phone}, phone, language, now, timeoutMinutes)
  {
    var created := NewSession(phone, language, now, timeoutMinutes);
    assert store[phone := created] == (store - {phone})[phone := created];
  }

  /**
   * An expired session counts for nothing: the phone gets the reply a phone
   * without a session gets, and the table ends the same, except that HELP
   * leaves the expired session where it is.
   */
  lemma ExpiredActsAsNew(store: Store, phone: string, message: string, now: int, timeoutMinutes: int)
    requires StoreValid(store) && 1 <= timeoutMinutes <= 60
    requires phone in store && IsExpired(store[phone], now)
    ensures StoreValid(store - {phone})
    ensures var out, anew := Transition(store, phone, message, now, timeoutMinutes), Transition(store - {phone}, phone, message, now, timeoutMinutes);
      && out.0 == anew.0
      && (Upper(Strip(message)) != "HELP" ==> out.1 == anew.1)
  {
    var rest := store - {phone};
    assert StoreValid(rest);
    assert rest - {phone} == rest;
    GetOrCreateForgetsExpired(store, phone, "fr", now, timeoutMinutes);
  }

  // ---------------------------------------------------------------- cleanup

  /** The sessions cleanup_expired_sessions keeps: those whose expiry is not yet past. */
  function LiveSessions(store: Store, now: int): (live: Store)
    ensures forall phone :: phone in live <==> phone in store && !IsExpired(store[phone], now)
    ensures forall phone :: phone in live ==> live[phone] == store[phone]
  {
    map phone | phone in store && !IsExpired(store[phone], now) :: store[phone]
  }

  /** The phone numbers whose sessions cleanup_expired_sessions deletes. */
  function ExpiredPhones(store: Store, now: int): (gone: set<string>)
    ensures forall phone :: phone in gone <==> phone in store && IsExpired(store[phone], now)
  {
    set phone | phone in store && IsExpired(store[phone], now)
  }

  /**
   * Cleanup splits the table in two: what it keeps and what it counts as
   * deleted together make up the table, so the count is the number of rows
   * that went, and what it keeps is still valid.
   */
  lemma CleanupPartitions(store: Store, now: int)
    ensures LiveSessions(store, now).Keys !! ExpiredPhones(store, now)
    ensures LiveSessions(store, now).Keys + ExpiredPhones(store, now) == store.Keys
    ensures |ExpiredPhones(store, now)| == |store| - |LiveSessions(store, now)|
    ensures StoreValid(store) ==> StoreValid(LiveSessions(store, now))
  {
    var live, gone := LiveSessions(store, now), ExpiredPhones(store, now);
    assert live.Keys + gone == store.Keys;
    assert |live.Keys + gone| == |live.Keys| + |gone|;
    assert |live| == |live.Keys| && |store| == |store.Keys|;
  }

  /** The phone's own live session, if it has one. */
  function LiveSessionOf(store: Store, phone: string, now: int): Option<ConversationSession> {
    if phone in store && !IsExpired(store[phone], now) then Some(store[phone]) else None
  }

  lemma AnswerStepReplyIgnoresTable(store1: Store, store2: Store, phone: string, s: ConversationSession, m: string, now: int)
    requires SessionValid(phone, s)
    ensures AnswerStep(store1, phone, s, m, now).0 == AnswerStep(store2, phone, s, m, now).0
  {
  }

  /** The reply to a message depends on no session but the phone's own live one. */
  lemma ReplyDependsOnOwnSession(store1: Store, store2: Store, phone: string, message: string, now: int, timeoutMinutes: int)
    requires StoreValid(store1) && StoreValid(store2) && 1 <= timeoutMinutes <= 60
    requires LiveSessionOf(store1, phone, now) == LiveSessionOf(store2, phone, now)
    ensures Transition(store1, phone, message, now, timeoutMinutes).0 == Transition(store2, phone, message, now, timeoutMinutes).0
  {
    var m := Strip(message);
    if Upper(m) != "RESTART" && Upper(m) != "HELP" {
      GetOrCreateKeepsStoreValid(store1, phone, "fr", now, timeoutMinutes);
      GetOrCreateKeepsStoreValid(store2, phone, "fr", now, timeoutMinutes);
      var got1, got2 := GetOrCreate(store1, phone, "fr", now, timeoutMinutes), GetOrCreate(store2, phone, "fr", now, timeoutMinutes);
      assert got1.0 == got2.0;
      assert Transition(store1, phone, message, now, timeoutMinutes) == Respond(got1, phone, m, now);
      assert Transition(store2, phone, message, now, timeoutMinutes) == Respond(got2, phone, m, now);
      if !(got1.0.currentStep == 0 && m == "") {
        AnswerStepReplyIgnoresTable(got1.1, got2.1, phone, got1.0, m, now);
      }
    }
  }

  /** Deleting the expired sessions changes no reply the service gives afterwards. */
  lemma CleanupIsUnobservable(store: Store, phone: string, message: string, now: int, later: int, timeoutMinutes: int)
    requires StoreValid(store) && 1 <= timeoutMinutes <= 60 && now <= later
    ensures StoreValid(LiveSessions(store, now))
    ensures Transition(LiveSessions(store, now), phone, message, later, timeoutMinutes).0
         == Transition(store, phone, message, later, timeoutMinutes).0
  {
    CleanupPartitions(store, now);
    ReplyDependsOnOwnSession(LiveSessions(store, now), store, phone, message, later, timeoutMinutes);
  }

  // ---------------------------------------------------------------- the manager

  /**
   * FlowManager, holding the conversation_sessions table it reads and writes
   * and the configured session timeout (1 to 60 minutes).
   */
  class FlowManager {
    const timeoutMinutes: int
    var sessions: Store

    ghost predicate Valid()
      reads this
    {
      1 <= timeoutMinutes <= 60 && StoreValid(sessions)
    }

    constructor(timeoutMinutes: int, sessions: Store)
      requires 1 <= timeoutMinutes <= 60 && StoreValid(sessions)
      ensures Valid()
      ensures this.timeoutMinutes == timeoutMinutes && this.sessions == sessions
    {
      this.timeoutMinutes := timeoutMinutes;
      this.sessions := sessions;
    }

    /** get_or_create_session: drops an expired session before it files a new one. */
    method GetOrCreateSession(phone: string, language: string, now: int) returns (session: ConversationSession)
      requires Valid()
      modifies this
      ensures Valid()
      ensures (session, sessions) == GetOrCreate(old(sessions), phone, language, now, timeoutMinutes)
      ensures SessionValid(phone, session) && !IsExpired(session, now)
    {
      GetOrCreateKeepsStoreValid(sessions, phone, language, now, timeoutMinutes);
      if phone in sessions {
        var existing := sessions[phone];
        if !IsExpired(existing, now) {
          return existing;
        }
        sessions := sessions - {phone};
      }
      session := NewSession(phone, language, now, timeoutMinutes);
      sessions := sessions[phone := session];
      assert sessions == old(sessions)[phone := session];
    }

    /** restart_session: deletes the phone's session, if any. */
    method RestartSession(phone: string)
      requires Valid()
      modifies this
      ensures Valid()
      ensures sessions == old(sessions) - {phone}
    {
      sessions := sessions - {phone};
    }

    /** process_message: the reply to one inbound message, and the table it leaves behind. */
    method ProcessMessage(phone: string, message: string, now: int) returns (result: FlowResult)
      requires Valid()
      modifies this
      ensures Valid()
      ensures (result, sessions) == Transition(old(sessions), phone, message, now, timeoutMinutes)
    {
      TransitionKeepsStoreValid(sessions, phone, message, now, timeoutMinutes);
      var m := Strip(message);
      if Upper(m) == "RESTART" {
        RestartSession(phone);
        return Reply(WelcomeReply());
      }
      if Upper(m) == "HELP" {
        return Reply(HelpText);
      }
      var session := GetOrCreateSession(phone, "fr", now);
      ghost var table := sessions;
      assert Transition(old(sessions), phone, message, now, timeoutMinutes) == Respond((session, table), phone, m, now);
      if session.currentStep == 0 && m == "" {
        return Reply(WelcomeReply());
      }
      assert Transition(old(sessions), phone, message, now, timeoutMinutes) == AnswerStep(table, phone, session, m, now);
      var step := Steps[session.currentStep];
      var verdict := Validate(step, m);
      if verdict.Rejected? {
        return Reply("❌ " + verdict.message + "\n\n" + GetQuestion(step, session.language));
      }
      var next := Advance(session, m, now);
      StepsShape();
      ValidateStep(session.currentStep, m);
      if next.currentStep >= |Steps| {
        CollectedAnswersValid(phone, session, m, now);
        AnswerStepCompletes(table, phone, session, m, now);
        var data := Collect(next.answers);
        sessions := sessions - {phone};
        return FlowResult(CompletionMessageFr, true, Some(data));
      }
      AnswerStepAdvances(table, phone, session, m, now);
      sessions := sessions[phone := next];
      result := Reply("✅ Compris!\n\n" + GetQuestion(Steps[next.currentStep], next.language));
    }

    /** cleanup_expired_sessions: deletes every session whose expiry is past and counts them. */
    method CleanupExpiredSessions(now: int) returns (count: nat)
      requires Valid()
      modifies this
      ensures Valid()
      ensures sessions == LiveSessions(old(sessions), now)
      ensures count == |ExpiredPhones(old(sessions), now)| == |old(sessions)| - |sessions|
    {
      CleanupPartitions(sessions, now);
      count := |ExpiredPhones(sessions, now)|;
      sessions := LiveSessions(sessions, now);
    }
  }
}
