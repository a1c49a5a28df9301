/** Redaction of request bodies before they reach the audit log, over arbitrary JSON. */
module Audit {
  import opened Options

  datatype Json =
    | Null
    | Bool(b: bool)
    | Number(text: string)
    | Text(s: string)
    | Array(items: seq<Json>)
    | Object(fields: seq<Field>)

  datatype Field = Field(key: string, value: Json)

  const REDACT_FIELDS: seq<string> := ["password", "passcode", "token", "secret", "api_key", "p12", "private_key"]

  const REDACTED := Text("[redacted]")

  /** Python's `needle in hay` on strings. */
  predicate Contains(hay: string, needle: string) {
    exists i :: 0 <= i <= |hay| - |needle| && FoundAt(hay, needle, i)
  }

  predicate FoundAt(hay: string, needle: string, i: nat)
    requires i <= |hay| - |needle|
  {
    hay[i..i + |needle|] == needle
  }

  predicate Sensitive(key: string) {
    exists k :: 0 <= k < |REDACT_FIELDS| && Contains(Lower(key), REDACT_FIELDS[k])
  }

  function Sanitise(j: Json): Json {
    match j
    case Object(fields) =>
      Object(seq(|fields|, i requires 0 <= i < |fields| =>
        Field(fields[i].key, if Sensitive(fields[i].key) then REDACTED else Sanitise(fields[i].value))))
    case Array(items) => Array(seq(|items|, i requires 0 <= i < |items| => Sanitise(items[i])))
    case _ => j
  }

  /** The key, in lower case, holds one of the seven words somewhere. */
  ghost predicate NamesASecret(key: string) {
    exists a, word, b ::
      && Lower(key) == a + word + b
      && (word == "password" || word == "passcode" || word == "token" || word == "secret"
          || word == "api_key" || word == "p12" || word == "private_key")
  }

  lemma {:induction false} ContainsIff(hay: string, needle: string)
    ensures Contains(hay, needle) <==> exists a, b :: hay == a + needle + b
  {
    if Contains(hay, needle) {
      var i :| 0 <= i <= |hay| - |needle| && FoundAt(hay, needle, i);
      assert hay == hay[..i] + needle + hay[i + |needle|..];
    }
    if a, b :| hay == a + needle + b {
      assert FoundAt(hay, needle, |a|);
    }
  }

  lemma {:induction false} SensitiveIff(key: string)
    ensures Sensitive(key) <==> NamesASecret(key)
  {
    forall k | 0 <= k < |REDACT_FIELDS|
      ensures Contains(Lower(key), REDACT_FIELDS[k]) <==> exists a, b :: Lower(key) == a + REDACT_FIELDS[k] + b
    {
      ContainsIff(Lower(key), REDACT_FIELDS[k]);
    }
    if NamesASecret(key) {
      var a, word, b :| && Lower(key) == a + word + b
                        && (word == "password" || word == "passcode" || word == "token" || word == "secret"
                            || word == "api_key" || word == "p12" || word == "private_key");
      var k := WordIndex(word);
    }
  }

  lemma {:induction false} WordIndex(word: string) returns (k: nat)
    requires word in REDACT_FIELDS
    ensures k < |REDACT_FIELDS| && REDACT_FIELDS[k] == word
  {
    k :| 0 <= k < |REDACT_FIELDS| && REDACT_FIELDS[k] == word;
  }

  /** Field by field: a key that names a secret keeps only the placeholder, any other its sanitised value. */
  lemma {:induction false} FieldRedactedIff(fields: seq<Field>, i: nat)
    requires i < |fields|
    ensures var out := Sanitise(Object(fields));
            && out.Object? && |out.fields| == |fields| && out.fields[i].key == fields[i].key
            && out.fields[i].value == if NamesASecret(fields[i].key) then Text("[redacted]")
                                      else Sanitise(fields[i].value)
  {
    SensitiveIff(fields[i].key);
  }

  /** The two values agree everywhere except below sensitive keys. */
  predicate AgreeOutside(a: Json, b: Json) {
    match (a, b)
    case (Object(fs), Object(gs)) =>
      |fs| == |gs| && forall i :: 0 <= i < |fs| ==>
        fs[i].key == gs[i].key && (Sensitive(fs[i].key) || AgreeOutside(fs[i].value, gs[i].value))
    case (Array(xs), Array(ys)) => |xs| == |ys| && forall i :: 0 <= i < |xs| ==> AgreeOutside(xs[i], ys[i])
    case _ => a == b
  }

  /**
    Noninterference, exactly: two bodies leave the same audit record if and only if they
    agree outside sensitive keys. Nothing below such a key shows, and everything else does.
  */
  lemma {:induction false} SameRecordIffAgreeOutside(a: Json, b: Json)
    ensures Sanitise(a) == Sanitise(b) <==> AgreeOutside(a, b)
  {
    match (a, b) {
      case (Object(fs), Object(gs)) => FieldsSameIff(fs, gs);
      case (Array(xs), Array(ys)) => ItemsSameIff(xs, ys);
      case _ =>
    }
  }

  lemma {:induction false} FieldsSameIff(fs: seq<Field>, gs: seq<Field>)
    ensures Sanitise(Object(fs)) == Sanitise(Object(gs)) <==> AgreeOutside(Object(fs), Object(gs))
    decreases fs
  {
    var ss, tt := Sanitise(Object(fs)).fields, Sanitise(Object(gs)).fields;
    if |fs| == |gs| {
      forall i | 0 <= i < |fs|
        ensures ss[i] == tt[i] <==>
          fs[i].key == gs[i].key && (Sensitive(fs[i].key) || AgreeOutside(fs[i].value, gs[i].value))
      {
        SameRecordIffAgreeOutside(fs[i].value, gs[i].value);
      }
    } else {
      assert |ss| != |tt|;
    }
  }

  lemma {:induction false} ItemsSameIff(xs: seq<Json>, ys: seq<Json>)
    ensures Sanitise(Array(xs)) == Sanitise(Array(ys)) <==> AgreeOutside(Array(xs), Array(ys))
    decreases xs
  {
    var ss, tt := Sanitise(Array(xs)).items, Sanitise(Array(ys)).items;
    if |xs| == |ys| {
      forall i | 0 <= i < |xs| ensures ss[i] == tt[i] <==> AgreeOutside(xs[i], ys[i]) {
        SameRecordIffAgreeOutside(xs[i], ys[i]);
      }
    } else {
      assert |ss| != |tt|;
    }
  }

  /** At every depth, what stands under a sensitive key is the placeholder. */
  predicate Clean(j: Json) {
    match j
    case Object(fields) =>
      forall i :: 0 <= i < |fields| ==>
        if Sensitive(fields[i].key) then fields[i].value == REDACTED else Clean(fields[i].value)
    case Array(items) => forall i :: 0 <= i < |items| ==> Clean(items[i])
    case _ => true
  }

  /** No value under a sensitive key survives, at any depth. */
  lemma {:induction false} SanitisedIsClean(j: Json)
    ensures Clean(Sanitise(j))
  {
    match j {
      case Object(fields) =>
        forall i | 0 <= i < |fields| ensures Clean(Sanitise(fields[i].value)) {
          SanitisedIsClean(fields[i].value);
        }
      case Array(items) =>
        forall i | 0 <= i < |items| ensures Clean(Sanitise(items[i])) {
          SanitisedIsClean(items[i]);
        }
      case _ =>
    }
  }

  /** Redaction touches only what is not clean already. */
  lemma {:induction false} CleanIsFixed(j: Json)
    ensures Sanitise(j) == j <==> Clean(j)
  {
    match j {
      case Object(fields) =>
        forall i | 0 <= i < |fields| ensures Sanitise(fields[i].value) == fields[i].value <==> Clean(fields[i].value) {
          CleanIsFixed(fields[i].value);
        }
        var out := Sanitise(j).fields;
        assert out == fields <==> forall i :: 0 <= i < |fields| ==> out[i] == fields[i];
      case Array(items) =>
        forall i | 0 <= i < |items| ensures Sanitise(items[i]) == items[i] <==> Clean(items[i]) {
          CleanIsFixed(items[i]);
        }
        var out := Sanitise(j).items;
        assert out == items <==> forall i :: 0 <= i < |items| ==> out[i] == items[i];
      case _ =>
    }
  }

  /** Sanitising twice is sanitising once, and a record agrees with its body outside sensitive keys. */
  lemma {:induction false} SanitiseIsIdempotent(j: Json)
    ensures Sanitise(Sanitise(j)) == Sanitise(j) && AgreeOutside(Sanitise(j), j)
  {
    SanitisedIsClean(j);
    CleanIsFixed(Sanitise(j));
    SameRecordIffAgreeOutside(Sanitise(j), j);
  }

  // ---------------------------------------------------------------- along a path

  datatype Step = Key(index: nat) | Index(index: nat)

  /** The value at the end of a path, if the path leads anywhere. */
  function At(j: Json, path: seq<Step>): Option<Json>
    decreases |path|
  {
    if path == [] then Some(j)
    else match (j, path[0])
      case (Object(fields), Key(i)) => if i < |fields| then At(fields[i].value, path[1..]) else None
      case (Array(items), Index(i)) => if i < |items| then At(items[i], path[1..]) else None
      case _ => None
  }

  /** Some key along the path is sensitive. */
  predicate Crosses(j: Json, path: seq<Step>)
    decreases |path|
  {
    path != [] &&
    match (j, path[0])
    case (Object(fields), Key(i)) => i < |fields| && (Sensitive(fields[i].key) || Crosses(fields[i].value, path[1..]))
    case (Array(items), Index(i)) => i < |items| && Crosses(items[i], path[1..])
    case _ => false
  }

  /**
    Off the sensitive paths the record holds the sanitised subtree, so every leaf as it was;
    on them, the placeholder or nothing.
  */
  lemma {:induction false} RecordAlongPath(j: Json, path: seq<Step>)
    ensures !Crosses(j, path) ==>
              At(Sanitise(j), path) == match At(j, path) case Some(v) => Some(Sanitise(v)) case None => None
    ensures Crosses(j, path) ==> At(Sanitise(j), path) in {None, Some(REDACTED)}
    decreases |path|
  {
    if path != [] {
      match (j, path[0]) {
        case (Object(fields), Key(i)) =>
          if i < |fields| {
            if Sensitive(fields[i].key) {
              assert At(REDACTED, path[1..]) in {None, Some(REDACTED)};
            } else {
              RecordAlongPath(fields[i].value, path[1..]);
            }
          }
        case (Array(items), Index(i)) =>
          if i < |items| {
            RecordAlongPath(items[i], path[1..]);
          }
        case _ =>
      }
    }
  }
}
