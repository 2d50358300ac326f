/**
 * Merging of the request parameters (`_read_request`): the query string
 * supplies `mode`, `bos_maintance` and `bos_update`; a JSON object in the body
 * overrides them key by key. The body's flags are coerced with the query's
 * value as their default, so an unrecognised body flag keeps the query's
 * decision.
 */
module Request {
  import opened Coerce

  /**
   * The request body as far as the merge cares: none (no or zero
   * `Content-Length`), bytes that are not valid UTF-8 JSON, valid JSON that is
   * not an object, or an object with its fields.
   */
  datatype Body = NoBody | Malformed | NotObject | Object(fields: map<string, Value>)

  /** The three parameters `_read_request` returns. */
  datatype Fields = Fields(mode: Value, bosMaintance: bool, bosUpdate: bool)

  /**
   * The query as its first value per name; a name without a (non-blank)
   * value is absent, as it is from `parse_qs`.
   */
  type Query = map<string, string>

  /** `qs.get(name, [None])[0]`. */
  function QueryValue(q: Query, name: string): Value {
    if name in q then Str(q[name]) else Null
  }

  /** The parameters read from the query alone: the mode is absent without a value, and both flags default to false. */
  function FromQuery(q: Query): (r: Fields)
    ensures r.mode.Null? <==> "mode" !in q
    ensures "bos_maintance" !in q ==> !r.bosMaintance
    ensures "bos_update" !in q ==> !r.bosUpdate
  {
    Fields(QueryValue(q, "mode"),
           ToBool(QueryValue(q, "bos_maintance"), false),
           ToBool(QueryValue(q, "bos_update"), false))
  }

  /**
   * The override by a JSON object: each present key replaces its parameter
   * (a flag through `_to_bool` with the old value as default), each absent key
   * keeps it.
   */
  function Override(base: Fields, data: map<string, Value>): (r: Fields)
    ensures "mode" in data ==> r.mode == data["mode"]
    ensures "mode" !in data ==> r.mode == base.mode
    ensures "bos_maintance" !in data ==> r.bosMaintance == base.bosMaintance
    ensures "bos_update" !in data ==> r.bosUpdate == base.bosUpdate
  {
    Fields(if "mode" in data then data["mode"] else base.mode,
           if "bos_maintance" in data then ToBool(data["bos_maintance"], base.bosMaintance) else base.bosMaintance,
           if "bos_update" in data then ToBool(data["bos_update"], base.bosUpdate) else base.bosUpdate)
  }

  /** `_read_request`: the query's parameters, overridden by a JSON object body when there is one. */
  function ReadRequest(q: Query, body: Body): (r: Fields)
    ensures !body.Object? ==> r == FromQuery(q)
    ensures body.Object? && "mode" in body.fields ==> r.mode == body.fields["mode"]
    ensures !(body.Object? && "mode" in body.fields) ==> r.mode == QueryValue(q, "mode")
    ensures body.Object? && "bos_maintance" !in body.fields ==> r.bosMaintance == FromQuery(q).bosMaintance
    ensures body.Object? && "bos_update" !in body.fields ==> r.bosUpdate == FromQuery(q).bosUpdate
  {
    match body
    case Object(data) => Override(FromQuery(q), data)
    case _ => FromQuery(q)
  }

  /** A parameter that neither the query nor the body mentions is absent (mode) or false (flags). */
  lemma DefaultsWithoutInput(q: Query, body: Body)
    ensures "mode" !in q && !(body.Object? && "mode" in body.fields) ==> ReadRequest(q, body).mode == Null
    ensures "bos_maintance" !in q && !(body.Object? && "bos_maintance" in body.fields) ==> !ReadRequest(q, body).bosMaintance
    ensures "bos_update" !in q && !(body.Object? && "bos_update" in body.fields) ==> !ReadRequest(q, body).bosUpdate
  {
  }

  /**
   * A body `bos_maintance` that `_to_bool` recognises decides that flag
   * whatever the query said.
   */
  lemma RecognisedBodyFlagWins(q1: Query, q2: Query, data: map<string, Value>)
    requires "bos_maintance" in data && Recognised(data["bos_maintance"])
    ensures ReadRequest(q1, Object(data)).bosMaintance == ReadRequest(q2, Object(data)).bosMaintance
    ensures ReadRequest(q1, Object(data)).bosMaintance == ToBool(data["bos_maintance"], false)
  {
    ToBoolUsesDefaultIffUnrecognised(data["bos_maintance"], ToBool(QueryValue(q1, "bos_maintance"), false));
    ToBoolUsesDefaultIffUnrecognised(data["bos_maintance"], ToBool(QueryValue(q2, "bos_maintance"), false));
  }

  /** A body `bos_maintance` that `_to_bool` does not recognise (a `null`, a float, `"maybe"`) leaves the query's flag. */
  lemma UnrecognisedBodyFlagKeepsQuery(q: Query, data: map<string, Value>)
    requires "bos_maintance" in data && !Recognised(data["bos_maintance"])
    ensures ReadRequest(q, Object(data)).bosMaintance == FromQuery(q).bosMaintance
  {
    ToBoolUsesDefaultIffUnrecognised(data["bos_maintance"], FromQuery(q).bosMaintance);
  }

  /** The same for `bos_update`: a recognised body value decides it whatever the query said. */
  lemma RecognisedBodyUpdateWins(q1: Query, q2: Query, data: map<string, Value>)
    requires "bos_update" in data && Recognised(data["bos_update"])
    ensures ReadRequest(q1, Object(data)).bosUpdate == ReadRequest(q2, Object(data)).bosUpdate
    ensures ReadRequest(q1, Object(data)).bosUpdate == ToBool(data["bos_update"], false)
  {
    ToBoolUsesDefaultIffUnrecognised(data["bos_update"], ToBool(QueryValue(q1, "bos_update"), false));
    ToBoolUsesDefaultIffUnrecognised(data["bos_update"], ToBool(QueryValue(q2, "bos_update"), false));
  }

  /** An unrecognised body `bos_update` leaves the query's flag. */
  lemma UnrecognisedBodyUpdateKeepsQuery(q: Query, data: map<string, Value>)
    requires "bos_update" in data && !Recognised(data["bos_update"])
    ensures ReadRequest(q, Object(data)).bosUpdate == FromQuery(q).bosUpdate
  {
    ToBoolUsesDefaultIffUnrecognised(data["bos_update"], FromQuery(q).bosUpdate);
  }

  /** A body that carries all three keys with recognised flags makes the query irrelevant. */
  lemma FullBodyIgnoresQuery(q1: Query, q2: Query, data: map<string, Value>)
    requires "mode" in data && "bos_maintance" in data && "bos_update" in data
    requires Recognised(data["bos_maintance"]) && Recognised(data["bos_update"])
    ensures ReadRequest(q1, Object(data)) == ReadRequest(q2, Object(data))
  {
    RecognisedBodyFlagWins(q1, q2, data);
    RecognisedBodyUpdateWins(q1, q2, data);
  }

  /** Two queries that agree on every name except `key`. */
  predicate SameQueryBut(q1: Query, q2: Query, key: string) {
    q1 - {key} == q2 - {key}
  }

  /** Two bodies that are the same except, for two objects, in the field `key`. */
  predicate SameBodyBut(b1: Body, b2: Body, key: string) {
    match (b1, b2)
    case (Object(d1), Object(d2)) => d1 - {key} == d2 - {key}
    case _ => b1 == b2
  }

  /** A query value other than `key` is the same in two queries that agree except on `key`. */
  lemma QueryValueBut(q1: Query, q2: Query, key: string, name: string)
    requires SameQueryBut(q1, q2, key) && name != key
    ensures QueryValue(q1, name) == QueryValue(q2, name)
  {
    assert name in q1 <==> name in q1 - {key};
    assert name in q2 <==> name in q2 - {key};
    if name in q1 {
      assert (q1 - {key})[name] == q1[name] && (q2 - {key})[name] == q2[name];
    }
  }

  /** A body field other than `key` is the same in two objects that agree except on `key`. */
  lemma FieldBut(d1: map<string, Value>, d2: map<string, Value>, key: string, name: string)
    requires d1 - {key} == d2 - {key} && name != key
    ensures name in d1 <==> name in d2
    ensures name in d1 ==> d1[name] == d2[name]
  {
    assert name in d1 <==> name in d1 - {key};
    assert name in d2 <==> name in d2 - {key};
    if name in d1 {
      assert (d1 - {key})[name] == d1[name] && (d2 - {key})[name] == d2[name];
    }
  }

  /**
   * The three parameters are read independently: what the query or the body
   * say about `bos_update` has no influence on the mode or on `bos_maintance`.
   */
  lemma BosUpdateIndependent(q1: Query, q2: Query, b1: Body, b2: Body)
    requires SameQueryBut(q1, q2, "bos_update") && SameBodyBut(b1, b2, "bos_update")
    ensures ReadRequest(q1, b1).mode == ReadRequest(q2, b2).mode
    ensures ReadRequest(q1, b1).bosMaintance == ReadRequest(q2, b2).bosMaintance
  {
    QueryValueBut(q1, q2, "bos_update", "mode");
    QueryValueBut(q1, q2, "bos_update", "bos_maintance");
    if b1.Object? {
      FieldBut(b1.fields, b2.fields, "bos_update", "mode");
      FieldBut(b1.fields, b2.fields, "bos_update", "bos_maintance");
    }
  }
}
