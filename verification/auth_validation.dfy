/**
 * The request-body validators of the authentication routes. Each one checks
 * the parsed JSON body against a joi object schema whose keys are all
 * required non-empty strings; on the first error it answers 400 with
 * "Bad request" and the error and stops, otherwise it passes the request on
 * to the next handler. The email grammar of joi is a parameter.
 */
module AuthValidation {
  import opened Wrappers

  // ---------------------------------------------------------------------------
  // Request bodies and schemas
  // ---------------------------------------------------------------------------

  /** A JSON value of the body: a string, or any other kind (number, boolean, null, array, object) */
  datatype JsonValue = JString(s: string) | JOther

  /** One member of the body object, in the order the client sent them */
  datatype Member = Member(key: string, value: JsonValue)

  type Body = seq<Member>

  /**
   * `req.body` as the validator receives it: absent (no body parser ran
   * before the route), a JSON object, or some other JSON value.
   */
  datatype RequestBody = Undefined | Object(members: Body) | NotAnObject

  /** `body[key]`, or None when the key is absent */
  function Lookup(body: Body, key: string): (v: Option<JsonValue>)
    ensures v.Some? <==> exists i :: 0 <= i < |body| && body[i].key == key
    decreases |body|
  {
    if body == [] then None
    else if body[0].key == key then Some(body[0].value)
    else Lookup(body[1..], key)
  }

  /** The value found is the one carried by the first member with the key. */
  lemma {:induction false} LookupFirst(body: Body, key: string, i: nat)
    requires i < |body| && body[i].key == key
    requires forall j :: 0 <= j < i ==> body[j].key != key
    ensures Lookup(body, key) == Some(body[i].value)
    decreases i
  {
    if i > 0 {
      assert body[0].key != key;
      forall j | 0 <= j < i - 1
        ensures body[1..][j].key != key
      {
        assert body[1..][j] == body[j + 1];
      }
      assert body[1..][i - 1] == body[i];
      LookupFirst(body[1..], key, i - 1);
    }
  }

  /** `key: joi.string()[.email()][.min(minLength)].required()` */
  datatype StringRule = StringRule(key: string, email: bool, minLength: nat)

  /** What joi reports for the first value that breaks the schema */
  datatype ValidationError =
    | Required(key: string)
    | NotAString(key: string)
    | Empty(key: string)
    | NotAnEmail(key: string)
    | TooShort(key: string, limit: nat)
    | NotAllowed(key: string)
    | ObjectExpected                 // the body is present but is not an object

  /** The keys a schema declares, in order */
  function SchemaKeys(schema: seq<StringRule>): (keys: seq<string>)
    ensures |keys| == |schema|
    ensures forall i :: 0 <= i < |schema| ==> keys[i] == schema[i].key
  {
    seq(|schema|, i requires 0 <= i < |schema| => schema[i].key)
  }

  // ---------------------------------------------------------------------------
  // Schema validation (joi's defaults: stop at the first error, no unknown keys)
  // ---------------------------------------------------------------------------

  /** The error for one declared key, if its value breaks the rule */
  function CheckRule(rule: StringRule, body: Body, isEmail: string -> bool): Option<ValidationError> {
    match Lookup(body, rule.key)
    case None => Some(Required(rule.key))
    case Some(JOther) => Some(NotAString(rule.key))
    case Some(JString(s)) =>
      if s == "" then Some(Empty(rule.key))
      else if rule.email && !isEmail(s) then Some(NotAnEmail(rule.key))
      else if |s| < rule.minLength then Some(TooShort(rule.key, rule.minLength))
      else None
  }

  /** The first error among the declared keys, in schema order */
  function CheckRules(schema: seq<StringRule>, body: Body, isEmail: string -> bool): Option<ValidationError>
    decreases |schema|
  {
    if schema == [] then None
    else
      match CheckRule(schema[0], body, isEmail)
      case Some(e) => Some(e)
      case None => CheckRules(schema[1..], body, isEmail)
  }

  /** The first member, in body order, whose key the schema does not declare */
  function FirstUnknownKey(keys: seq<string>, body: Body): Option<string>
    decreases |body|
  {
    if body == [] then None
    else if body[0].key !in keys then Some(body[0].key)
    else FirstUnknownKey(keys, body[1..])
  }

  /** `schema.validate(body).error`: declared keys first, then keys the schema does not allow */
  function Validate(schema: seq<StringRule>, body: Body, isEmail: string -> bool): Option<ValidationError> {
    match CheckRules(schema, body, isEmail)
    case Some(e) => Some(e)
    case None =>
      match FirstUnknownKey(SchemaKeys(schema), body)
      case Some(k) => Some(NotAllowed(k))
      case None => None
  }

  /**
   * `schema.validate(req.body).error`: the schema is `joi.object(...)` without
   * `.required()`, so an absent body passes, and any value that is not an
   * object fails before a key is looked at.
   */
  function ValidateBody(schema: seq<StringRule>, req: RequestBody, isEmail: string -> bool): Option<ValidationError> {
    match req
    case Undefined => None
    case NotAnObject => Some(ObjectExpected)
    case Object(body) => Validate(schema, body, isEmail)
  }

  // ---------------------------------------------------------------------------
  // Reference definition of an accepted body
  // ---------------------------------------------------------------------------

  /** The value under `rule.key` is a non-empty string meeting the rule's email and length demands. */
  predicate Satisfies(rule: StringRule, body: Body, isEmail: string -> bool) {
    && Lookup(body, rule.key).Some?
    && Lookup(body, rule.key).value.JString?
    && var s := Lookup(body, rule.key).value.s;
    && s != ""
    && (rule.email ==> isEmail(s))
    && |s| >= rule.minLength
  }

  /** Every member of the body has one of the given keys. */
  predicate OnlyKeys(body: Body, keys: seq<string>) {
    forall i :: 0 <= i < |body| ==> body[i].key in keys
  }

  /** A body the schema accepts: every rule holds and nothing undeclared is present. */
  predicate Accepts(schema: seq<StringRule>, body: Body, isEmail: string -> bool) {
    && (forall i :: 0 <= i < |schema| ==> Satisfies(schema[i], body, isEmail))
    && OnlyKeys(body, SchemaKeys(schema))
  }

  /** A request the schema lets through: no body at all, or an object body it accepts */
  predicate AcceptsRequest(schema: seq<StringRule>, req: RequestBody, isEmail: string -> bool) {
    req.Undefined? || (req.Object? && Accepts(schema, req.members, isEmail))
  }

  lemma CheckRuleNoneIff(rule: StringRule, body: Body, isEmail: string -> bool)
    ensures CheckRule(rule, body, isEmail) == None <==> Satisfies(rule, body, isEmail)
  {
  }

  lemma {:induction false} CheckRulesNoneIff(schema: seq<StringRule>, body: Body, isEmail: string -> bool)
    ensures CheckRules(schema, body, isEmail) == None <==>
      forall i :: 0 <= i < |schema| ==> Satisfies(schema[i], body, isEmail)
    decreases |schema|
  {
    if schema != [] {
      CheckRuleNoneIff(schema[0], body, isEmail);
      CheckRulesNoneIff(schema[1..], body, isEmail);
      if CheckRules(schema, body, isEmail) == None {
        forall i | 0 <= i < |schema| ensures Satisfies(schema[i], body, isEmail) {
          if i > 0 {
            assert schema[i] == schema[1..][i - 1];
          }
        }
      }
      if forall i :: 0 <= i < |schema| ==> Satisfies(schema[i], body, isEmail) {
        forall i | 0 <= i < |schema| - 1 ensures Satisfies(schema[1..][i], body, isEmail) {
          assert schema[1..][i] == schema[i + 1];
        }
      }
    }
  }

  lemma {:induction false} FirstUnknownKeyNoneIff(keys: seq<string>, body: Body)
    ensures FirstUnknownKey(keys, body) == None <==> OnlyKeys(body, keys)
    decreases |body|
  {
    if body != [] {
      FirstUnknownKeyNoneIff(keys, body[1..]);
      if OnlyKeys(body, keys) {
        forall i | 0 <= i < |body| - 1 ensures body[1..][i].key in keys {
          assert body[1..][i] == body[i + 1];
        }
      }
      if body[0].key in keys && OnlyKeys(body[1..], keys) {
        forall i | 0 <= i < |body| ensures body[i].key in keys {
          if i > 0 {
            assert body[i] == body[1..][i - 1];
          }
        }
      }
    }
  }

  /**
   * A reported unknown key is a key of the body that the schema does not
   * declare, and every member before it carries a declared key.
   */
  lemma {:induction false} FirstUnknownKeyIs(keys: seq<string>, body: Body)
    ensures FirstUnknownKey(keys, body).Some? ==>
      exists i :: 0 <= i < |body| && body[i].key == FirstUnknownKey(keys, body).value
        && body[i].key !in keys && forall j :: 0 <= j < i ==> body[j].key in keys
    decreases |body|
  {
    if body != [] && body[0].key in keys && FirstUnknownKey(keys, body).Some? {
      FirstUnknownKeyIs(keys, body[1..]);
      var i :| 0 <= i < |body[1..]| && body[1..][i].key == FirstUnknownKey(keys, body).value
        && body[1..][i].key !in keys && forall j :: 0 <= j < i ==> body[1..][j].key in keys;
      assert body[i + 1] == body[1..][i];
      forall j | 0 <= j < i + 1
        ensures body[j].key in keys
      {
        if j > 0 {
          assert body[j] == body[1..][j - 1];
        }
      }
    }
  }

  /** The schema interpreter reports no error exactly on the bodies the reference definition accepts. */
  lemma ValidateNoneIff(schema: seq<StringRule>, body: Body, isEmail: string -> bool)
    ensures Validate(schema, body, isEmail) == None <==> Accepts(schema, body, isEmail)
  {
    CheckRulesNoneIff(schema, body, isEmail);
    FirstUnknownKeyNoneIff(SchemaKeys(schema), body);
  }

  /** On whole requests: no error exactly for an absent body or an accepted object body. */
  lemma ValidateBodyNoneIff(schema: seq<StringRule>, req: RequestBody, isEmail: string -> bool)
    ensures ValidateBody(schema, req, isEmail) == None <==> AcceptsRequest(schema, req, isEmail)
  {
    if req.Object? {
      ValidateNoneIff(schema, req.members, isEmail);
    }
  }

  /**
   * joi reports the first declared key, in schema order, whose value breaks
   * its rule: when the keys before position k pass and key k fails, the error
   * is key k's.
   */
  lemma {:induction false} CheckRulesFirstError(schema: seq<StringRule>, body: Body, isEmail: string -> bool, k: nat)
    requires k < |schema|
    requires forall j :: 0 <= j < k ==> CheckRule(schema[j], body, isEmail) == None
    requires CheckRule(schema[k], body, isEmail).Some?
    ensures CheckRules(schema, body, isEmail) == CheckRule(schema[k], body, isEmail)
    ensures Validate(schema, body, isEmail) == CheckRule(schema[k], body, isEmail)
    decreases k
  {
    if k > 0 {
      assert CheckRule(schema[0], body, isEmail) == None;
      forall j | 0 <= j < k - 1
        ensures CheckRule(schema[1..][j], body, isEmail) == None
      {
        assert schema[1..][j] == schema[j + 1];
      }
      assert schema[1..][k - 1] == schema[k];
      CheckRulesFirstError(schema[1..], body, isEmail, k - 1);
    }
  }

  // ---------------------------------------------------------------------------
  // The two middlewares
  // ---------------------------------------------------------------------------

  /** `name`, `email` and `password` (at least 8 characters) */
  const SignupSchema: seq<StringRule> :=
    [StringRule("name", false, 0), StringRule("email", true, 0), StringRule("password", false, 8)]

  /** `email` and `password` (at least 8 characters) */
  const LoginSchema: seq<StringRule> :=
    [StringRule("email", true, 0), StringRule("password", false, 8)]

  const BadRequest := "Bad request"

  /** What a validator does with the request */
  datatype Outcome =
    | Reject400(message: string, error: ValidationError)  // `res.status(400).json({message, error})`, no `next()`
    | CallNext                                            // `next()` once, no response written

  /** The status the middleware sets on the response, if any */
  function StatusSet(outcome: Outcome): Option<nat> {
    match outcome
    case Reject400(_, _) => Some(400)
    case CallNext => None
  }

  /** How many times the middleware calls `next` */
  function NextCalls(outcome: Outcome): nat {
    match outcome
    case Reject400(_, _) => 0
    case CallNext => 1
  }

  function Respond(error: Option<ValidationError>): Outcome {
    match error
    case Some(e) => Reject400(BadRequest, e)
    case None => CallNext
  }

  /** The `signup` middleware */
  function Signup(req: RequestBody, isEmail: string -> bool): Outcome {
    Respond(ValidateBody(SignupSchema, req, isEmail))
  }

  /** The `login` middleware */
  function Login(req: RequestBody, isEmail: string -> bool): Outcome {
    Respond(ValidateBody(LoginSchema, req, isEmail))
  }

  /** A required non-empty string field */
  predicate HasString(body: Body, key: string) {
    Lookup(body, key).Some? && Lookup(body, key).value.JString? && Lookup(body, key).value.s != ""
  }

  /** The body's value under `key`, as a string; "" when there is none */
  function StringAt(body: Body, key: string): string {
    if HasString(body, key) then Lookup(body, key).value.s else ""
  }

  /**
   * `signup` passes the request on exactly when name, email and password are
   * non-empty strings, the email is well-formed, the password has at least 8
   * characters and the body holds no other key.
   */
  lemma SignupAcceptsIff(body: Body, isEmail: string -> bool)
    ensures Signup(Object(body), isEmail) == CallNext <==>
      && HasString(body, "name")
      && HasString(body, "email") && isEmail(StringAt(body, "email"))
      && HasString(body, "password") && |StringAt(body, "password")| >= 8
      && OnlyKeys(body, ["name", "email", "password"])
  {
    ValidateNoneIff(SignupSchema, body, isEmail);
    assert SchemaKeys(SignupSchema) == ["name", "email", "password"];
    assert Satisfies(SignupSchema[0], body, isEmail) <==> HasString(body, "name");
  }

  /**
   * `login` passes the request on exactly when email and password are
   * non-empty strings, the email is well-formed, the password has at least 8
   * characters and the body holds no other key; no name is asked for.
   */
  lemma LoginAcceptsIff(body: Body, isEmail: string -> bool)
    ensures Login(Object(body), isEmail) == CallNext <==>
      && HasString(body, "email") && isEmail(StringAt(body, "email"))
      && HasString(body, "password") && |StringAt(body, "password")| >= 8
      && OnlyKeys(body, ["email", "password"])
  {
    ValidateNoneIff(LoginSchema, body, isEmail);
    assert SchemaKeys(LoginSchema) == ["email", "password"];
  }

  /**
   * `signup` rejects an object body that lacks the k-th of name, email and
   * password; when the fields before it are valid, the error reports that
   * field as required.
   */
  lemma SignupRejectsMissingField(body: Body, isEmail: string -> bool, k: nat)
    requires k < |SignupSchema|
    requires Lookup(body, SignupSchema[k].key) == None
    ensures Signup(Object(body), isEmail).Reject400?
    ensures (forall j :: 0 <= j < k ==> Satisfies(SignupSchema[j], body, isEmail)) ==>
      Signup(Object(body), isEmail) == Reject400(BadRequest, Required(SignupSchema[k].key))
  {
    SignupAcceptsIff(body, isEmail);
    if forall j :: 0 <= j < k ==> Satisfies(SignupSchema[j], body, isEmail) {
      forall j | 0 <= j < k
        ensures CheckRule(SignupSchema[j], body, isEmail) == None
      {
        CheckRuleNoneIff(SignupSchema[j], body, isEmail);
      }
      CheckRulesFirstError(SignupSchema, body, isEmail, k);
    }
  }

  /** Both validators reject a password string shorter than 8 characters. */
  lemma ShortPasswordRejected(body: Body, isEmail: string -> bool)
    requires Lookup(body, "password").Some? && Lookup(body, "password").value.JString?
    requires |Lookup(body, "password").value.s| < 8
    ensures Signup(Object(body), isEmail).Reject400?
    ensures Login(Object(body), isEmail).Reject400?
  {
    SignupAcceptsIff(body, isEmail);
    LoginAcceptsIff(body, isEmail);
  }

  /** A signup body with valid fields and a password of 8 or more characters is passed on. */
  lemma SignupAcceptsLongPassword(name: string, email: string, password: string, isEmail: string -> bool)
    requires name != "" && email != "" && isEmail(email) && |password| >= 8
    ensures Signup(Object([Member("name", JString(name)), Member("email", JString(email)),
                           Member("password", JString(password))]), isEmail) == CallNext
  {
    var body := [Member("name", JString(name)), Member("email", JString(email)), Member("password", JString(password))];
    SignupAcceptsIff(body, isEmail);
    assert body[1..] == [Member("email", JString(email)), Member("password", JString(password))];
    assert body[1..][1..] == [Member("password", JString(password))];
    assert Lookup(body[1..][1..], "password") == Some(JString(password));
    assert Lookup(body[1..], "password") == Some(JString(password));
    assert Lookup(body, "email") == Some(JString(email));
  }

  /** `login` needs no name: a valid email and an 8-character password suffice. */
  lemma LoginAcceptsWithoutName(email: string, password: string, isEmail: string -> bool)
    requires email != "" && isEmail(email) && |password| >= 8
    ensures Login(Object([Member("email", JString(email)), Member("password", JString(password))]), isEmail) == CallNext
  {
    var body := [Member("email", JString(email)), Member("password", JString(password))];
    LoginAcceptsIff(body, isEmail);
    assert body[0].key != "password";
    assert body[1..] == [Member("password", JString(password))];
    assert Lookup(body[1..], "password") == Some(JString(password));
  }

  /** Unknown keys are not allowed: a login body that also carries a name is rejected. */
  lemma LoginRejectsName(body: Body, isEmail: string -> bool)
    requires Lookup(body, "name").Some?
    ensures Login(Object(body), isEmail).Reject400?
  {
    LoginAcceptsIff(body, isEmail);
    var i :| 0 <= i < |body| && body[i].key == "name";
    assert body[i].key !in ["email", "password"];
  }

  /**
   * A validator either answers 400 without calling `next`, or calls `next`
   * exactly once without setting a status; it answers 400 exactly when
   * the request breaks the schema.
   */
  lemma MiddlewareEffects(req: RequestBody, isEmail: string -> bool)
    ensures var o := Signup(req, isEmail);
      (StatusSet(o) == Some(400) && NextCalls(o) == 0) <==> !AcceptsRequest(SignupSchema, req, isEmail)
    ensures var o := Signup(req, isEmail);
      (StatusSet(o) == None && NextCalls(o) == 1) <==> AcceptsRequest(SignupSchema, req, isEmail)
    ensures var o := Login(req, isEmail);
      (StatusSet(o) == Some(400) && NextCalls(o) == 0) <==> !AcceptsRequest(LoginSchema, req, isEmail)
    ensures var o := Login(req, isEmail);
      (StatusSet(o) == None && NextCalls(o) == 1) <==> AcceptsRequest(LoginSchema, req, isEmail)
    ensures Signup(req, isEmail).Reject400? ==> Signup(req, isEmail).message == BadRequest
    ensures Login(req, isEmail).Reject400? ==> Login(req, isEmail).message == BadRequest
  {
    ValidateBodyNoneIff(SignupSchema, req, isEmail);
    ValidateBodyNoneIff(LoginSchema, req, isEmail);
  }

  /**
   * The object schema is optional: a request whose body was never parsed is
   * passed on by both validators, while a body that is not an object is
   * rejected by both.
   */
  lemma RequestShape(isEmail: string -> bool)
    ensures Signup(Undefined, isEmail) == CallNext && Login(Undefined, isEmail) == CallNext
    ensures Signup(NotAnObject, isEmail) == Reject400(BadRequest, ObjectExpected)
    ensures Login(NotAnObject, isEmail) == Reject400(BadRequest, ObjectExpected)
  {
  }
}
