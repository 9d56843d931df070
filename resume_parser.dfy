/** Validation and repair of the language model's near-JSON answer, and the
    outcome of parsing one resume. The JSON decoder (json.loads) is a
    parameter: Some(value) when it decodes the text, None when it raises a
    decode error. */
module ResumeParsing {
  import opened Common
  import opened JsonValue

  /** The exceptions validation can raise: the decode error of the second
      attempt, the missing-name ValueError, and the AttributeError of calling
      .get on a decoded value that is not an object. */
  datatype ParseError = DecodeError | MissingName | NotAnObject

  /** Every string handed to the decoder, in order, with the outcome. */
  datatype Validation = Validation(attempts: seq<string>, result: Result<Json, ParseError>)

  const NoneToken: string := "None"
  const NullToken: string := "null"

  /** str.replace with a one-character pattern: no `from` is left, and
      nothing but `to` is added. */
  function ReplaceChar(s: string, from: char, to: char): (r: string)
    ensures |r| == |s|
    ensures from != to ==> from !in r
    ensures forall c :: c in r ==> c == to || c in s
    ensures forall i :: 0 <= i < |s| ==> r[i] == if s[i] == from then to else s[i]
  {
    seq(|s|, i requires 0 <= i < |s| => if s[i] == from then to else s[i])
  }

  /** str.replace: every non-overlapping occurrence of `pattern`, scanning
      from the left, is replaced by `replacement`. */
  function ReplaceAll(s: string, pattern: string, replacement: string): (r: string)
    requires pattern != []
    ensures |pattern| == |replacement| ==> |r| == |s|
    ensures forall c :: c !in s && c !in replacement ==> c !in r
    decreases |s|
  {
    if |s| < |pattern| then s
    else if s[..|pattern|] == pattern then replacement + ReplaceAll(s[|pattern|..], pattern, replacement)
    else [s[0]] + ReplaceAll(s[1..], pattern, replacement)
  }

  /** The repair: every single quote becomes a double quote, then every
      "None" becomes "null". */
  function Repair(raw: string): string
  {
    ReplaceAll(ReplaceChar(raw, '\'', '"'), NoneToken, NullToken)
  }

  /** A text without the pattern is left as it is. */
  lemma {:induction false} ReplaceAbsent(s: string, pattern: string, replacement: string)
    requires pattern != [] && !Contains(s, pattern)
    ensures ReplaceAll(s, pattern, replacement) == s
    decreases |s|
  {
    if |s| >= |pattern| {
      assert !OccursAt(s, pattern, 0);
      forall i: nat | i <= |s[1..]|
        ensures !OccursAt(s[1..], pattern, i)
      {
        if i + |pattern| <= |s[1..]| {
          assert s[1..][i..i + |pattern|] == s[i + 1..i + 1 + |pattern|];
          assert !OccursAt(s, pattern, i + 1);
        }
      }
      ReplaceAbsent(s[1..], pattern, replacement);
      assert [s[0]] + s[1..] == s;
    }
  }

  /** One step of the None-replacement. */
  lemma ReplaceNoneStep(s: string)
    requires s != []
    ensures var r := ReplaceAll(s, NoneToken, NullToken);
      && |r| == |s|
      && (if |s| >= 4 && s[..4] == NoneToken then r == NullToken + ReplaceAll(s[4..], NoneToken, NullToken)
          else r == [s[0]] + ReplaceAll(s[1..], NoneToken, NullToken))
  {
  }

  /** The input starts with "None", letter by letter. */
  predicate NoneAtFront(s: string)
  {
    |s| >= 4 && s[0] == 'N' && s[1] == 'o' && s[2] == 'n' && s[3] == 'e'
  }

  lemma NoneAtFrontIsPrefix(s: string)
    ensures NoneAtFront(s) <==> |s| >= 4 && s[..4] == NoneToken
  {
    if |s| >= 4 {
      assert s[..4] == [s[0], s[1], s[2], s[3]];
    }
  }

  /** One step of the None-replacement, letter by letter. */
  lemma ReplaceStep(s: string)
    requires s != []
    ensures var r := ReplaceAll(s, NoneToken, NullToken);
      && |r| == |s|
      && (NoneAtFront(s) ==> r[0] == 'n' && r[1] == 'u')
      && (!NoneAtFront(s) ==> r[0] == s[0] && r[1..] == ReplaceAll(s[1..], NoneToken, NullToken))
  {
    NoneAtFrontIsPrefix(s);
    ReplaceNoneStep(s);
  }

  /** Following the letters of "None" back through the replacement: an
      output letter e, n-e or o-n-e at the front needs the same letters at
      the front of the input. */
  lemma NoFrontE(t: string)
    requires |t| >= 1 && t[0] != 'e'
    ensures ReplaceAll(t, NoneToken, NullToken)[0] != 'e'
  {
    ReplaceStep(t);
  }

  lemma NoFrontNe(t: string)
    requires |t| >= 2 && !(t[0] == 'n' && t[1] == 'e')
    ensures var r := ReplaceAll(t, NoneToken, NullToken); !(r[0] == 'n' && r[1] == 'e')
  {
    ReplaceStep(t);
    if !NoneAtFront(t) && t[0] == 'n' {
      NoFrontE(t[1..]);
    }
  }

  lemma NoFrontOne(t: string)
    requires |t| >= 3 && !(t[0] == 'o' && t[1] == 'n' && t[2] == 'e')
    ensures var r := ReplaceAll(t, NoneToken, NullToken); !(r[0] == 'o' && r[1] == 'n' && r[2] == 'e')
  {
    ReplaceStep(t);
    if !NoneAtFront(t) && t[0] == 'o' {
      NoFrontNe(t[1..]);
    }
  }

  /** An input that does not start with "None" gives an output that does
      not either. */
  lemma NoFrontNone(s: string)
    requires |s| >= 4 && s[..4] != NoneToken
    ensures !OccursAt(ReplaceAll(s, NoneToken, NullToken), NoneToken, 0)
  {
    var r := ReplaceAll(s, NoneToken, NullToken);
    NoneAtFrontIsPrefix(s);
    NoneAtFrontIsPrefix(r);
    ReplaceStep(s);
    if s[0] == 'N' {
      NoFrontOne(s[1..]);
    }
  }

  /** The replacement cannot leave or create an occurrence of "None":
      "null" holds no "N", so no occurrence can start inside it. */
  lemma {:induction false} ReplaceNoneClears(s: string)
    ensures !Contains(ReplaceAll(s, NoneToken, NullToken), NoneToken)
    decreases |s|
  {
    var r := ReplaceAll(s, NoneToken, NullToken);
    if |s| < 4 {
      assert |r| < 4;
    } else if s[..4] == NoneToken {
      var rest := ReplaceAll(s[4..], NoneToken, NullToken);
      ReplaceNoneClears(s[4..]);
      assert r == NullToken + rest;
      forall i: nat | i <= |r|
        ensures !OccursAt(r, NoneToken, i)
      {
        if i < 4 {
          assert r[i] != 'N';
        } else if i + 4 <= |r| {
          assert r[i..i + 4] == rest[i - 4..i];
          assert !OccursAt(rest, NoneToken, i - 4);
        }
      }
    } else {
      var rest := ReplaceAll(s[1..], NoneToken, NullToken);
      ReplaceNoneClears(s[1..]);
      assert r == [s[0]] + rest;
      forall i: nat | i <= |r|
        ensures !OccursAt(r, NoneToken, i)
      {
        if i == 0 {
          NoFrontNone(s);
        } else if i + 4 <= |r| {
          assert r[i..i + 4] == rest[i - 1..i + 3];
          assert !OccursAt(rest, NoneToken, i - 1);
        }
      }
    }
  }

  /** The repaired text has the input's length and holds no single quote and
      no "None"; repairing it again changes nothing. */
  lemma RepairSpec(raw: string)
    ensures |Repair(raw)| == |raw|
    ensures '\'' !in Repair(raw)
    ensures !Contains(Repair(raw), NoneToken)
    ensures Repair(Repair(raw)) == Repair(raw)
  {
    var quoted := ReplaceChar(raw, '\'', '"');
    ReplaceNoneClears(quoted);
    assert '\'' !in quoted by {
      forall i | 0 <= i < |quoted|
        ensures quoted[i] != '\''
      {
      }
    }
    var r := Repair(raw);
    assert '\'' !in r;
    assert ReplaceChar(r, '\'', '"') == r;
    ReplaceAbsent(r, NoneToken, NullToken);
  }

  /** The decoded object has a "name" field whose value is truthy. */
  predicate HasName(data: Json)
    requires data.Object?
  {
    "name" in data.fields && Truthy(data.fields["name"])
  }

  /** _validate_json: decode once and check the name; on a decode error,
      repair the text and decode once more, without the name check. */
  function ValidateJson(raw: string, decode: string -> Option<Json>): (v: Validation)
    ensures 1 <= |v.attempts| <= 2 && v.attempts[0] == raw
    ensures |v.attempts| == 2 <==> decode(raw).None?
    ensures |v.attempts| == 2 ==> v.attempts[1] == Repair(raw)
    ensures v.result.Ok? ==> decode(v.attempts[|v.attempts| - 1]) == Some(v.result.value)
    ensures decode(raw).Some? ==>
      (v.result.Ok? <==> decode(raw).value.Object? && HasName(decode(raw).value))
    ensures decode(raw).Some? && !decode(raw).value.Object? ==> v.result == Err(NotAnObject)
    ensures decode(raw).Some? && decode(raw).value.Object? && !HasName(decode(raw).value) ==> v.result == Err(MissingName)
    ensures v.result == Err(DecodeError) <==> decode(raw).None? && decode(Repair(raw)).None?
  {
    match decode(raw)
    case Some(data) =>
      var result :=
        if !data.Object? then Err(NotAnObject)
        else if !HasName(data) then Err(MissingName)
        else Ok(data);
      Validation([raw], result)
    case None =>
      var corrected := Repair(raw);
      var result := match decode(corrected)
        case Some(data) => Ok(data)
        case None => Err(DecodeError);
      Validation([raw, corrected], result)
  }

  /** A value with a name that decodes on the first attempt comes back
      unchanged; a value reached through the repair comes back whatever it
      holds, even with no name at all. */
  lemma ValidateJsonPaths(raw: string, decode: string -> Option<Json>)
    ensures decode(raw).Some? && decode(raw).value.Object? && HasName(decode(raw).value) ==>
      ValidateJson(raw, decode).result == Ok(decode(raw).value)
    ensures decode(raw).None? && decode(Repair(raw)).Some? ==>
      ValidateJson(raw, decode).result == Ok(decode(Repair(raw)).value)
    ensures var repaired := Object(map["age" := Number(30.0)]);
      ValidateJson("{'age': 30}", s => if s == "{\"age\": 30}" then Some(repaired) else None).result == Ok(repaired)
  {
    var repaired := Object(map["age" := Number(30.0)]);
    var raw := "{'age': 30}";
    assert ReplaceChar(raw, '\'', '"') == "{\"age\": 30}";
    assert !Contains("{\"age\": 30}", NoneToken) by {
      forall i: nat | i <= |"{\"age\": 30}"|
        ensures !OccursAt("{\"age\": 30}", NoneToken, i)
      {
        if i + 4 <= |"{\"age\": 30}"| {
          assert "{\"age\": 30}"[i] != 'N';
        }
      }
    }
    ReplaceAbsent("{\"age\": 30}", NoneToken, NullToken);
  }

  /** ResumeParser.parse: `answer` is the language model's text or its
      failure; every exception, from the model or from validation, becomes
      None. */
  function ParseResume(answer: Result<string, string>, decode: string -> Option<Json>): (r: Option<Json>)
    ensures r.Some? ==> (answer.Ok? &&
      (decode(answer.value) == r || (decode(answer.value).None? && decode(Repair(answer.value)) == r)))
    ensures answer.Err? ==> r.None?
    ensures answer.Ok? && decode(answer.value).Some? ==>
      (r.Some? <==> decode(answer.value).value.Object? && HasName(decode(answer.value).value))
    ensures answer.Ok? && decode(answer.value).None? ==> r == decode(Repair(answer.value))
  {
    match answer
    case Err(_) => None
    case Ok(text) =>
      match ValidateJson(text, decode).result
      case Ok(data) => Some(data)
      case Err(_) => None
  }
}
