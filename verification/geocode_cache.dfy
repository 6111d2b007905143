/**
 * `decodeGeocodeCache`: a record's geocode-cache string (a base64-encoded
 * JSON document, possibly preceded by a status marker) decoded to a
 * latitude/longitude pair, or null. `JSON.parse` is a parameter of the
 * model; `atob` is the forgiving-base64 decoder of module Base64.
 */
module GeocodeCache {
  import opened Wrappers
  import opened JsText
  import Base64

  /** A value `JSON.parse` can return. Numbers are reals; an object is a map,
      in which a later duplicate key has already replaced an earlier one. */
  datatype Json =
    | JNull
    | JBool(b: bool)
    | JNumber(n: real)
    | JString(s: string)
    | JArray(items: seq<Json>)
    | JObject(fields: map<string, Json>)

  /** The pair `[lat, lng]` the decoder returns. */
  datatype Coord = Coord(lat: real, lng: real)

  /** Why the decoder returned null. `MissingLatLng` is the `console.warn`
      branch; the others are exceptions caught and logged with
      `console.error`. */
  datatype DecodeError =
    | MissingInput      // `cacheStr.trim()` on undefined
    | BadBase64         // `atob` threw
    | BadJson           // `JSON.parse` threw
    | NullDestructure   // destructuring `null` (the document or its `o`)
    | MissingLatLng     // `lat` or `lng` is not a number

  /** The characters the cleaning pattern `[^\w\/+=]` does not match. */
  predicate IsKept(c: char)
  {
    'A' <= c <= 'Z' || 'a' <= c <= 'z' || '0' <= c <= '9' || c == '_' || c == '/' || c == '+' || c == '='
  }

  /** `s.replace(/^[^\w\/+=]+/, '')`: drop the leading run of characters the
      pattern matches. */
  function StripLeadingJunk(s: string): (r: string)
    ensures |r| <= |s| && r == s[|s| - |r|..]
    ensures r == [] || IsKept(r[0])
    ensures forall i :: 0 <= i < |s| - |r| ==> !IsKept(s[i])
  {
    if s != [] && !IsKept(s[0]) then
      var r := StripLeadingJunk(s[1..]);
      assert forall i :: 0 <= i < |s| - |r| ==> !IsKept(s[i]) by {
        forall i | 1 <= i < |s| - |r| ensures !IsKept(s[i]) {
          assert s[i] == s[1..][i - 1];
        }
      }
      r
    else s
  }

  /** `cacheStr.trim().replace(/^[^\w\/+=]+/, '')`: a suffix of the trimmed
      string that starts at its first kept character. */
  function Clean(s: string): (r: string)
    ensures |r| <= |Trim(s)| && r == Trim(s)[|Trim(s)| - |r|..]
    ensures r == [] || IsKept(r[0])
    ensures forall i :: 0 <= i < |Trim(s)| - |r| ==> !IsKept(Trim(s)[i])
  {
    StripLeadingJunk(Trim(s))
  }

  /** Cleaning twice is cleaning once. */
  lemma CleanIdempotent(s: string)
    ensures Clean(Clean(s)) == Clean(s)
  {
    var r := Clean(s);
    if r != [] {
      var t := Trim(s);
      assert r[|r| - 1] == t[|t| - 1];
      KeptNotBlank(r[0]);
      TrimOfTrimmed(r);
    }
  }

  lemma {:induction false} StripJunkPrefix(junk: string, b: string)
    requires forall i :: 0 <= i < |junk| ==> !IsKept(junk[i])
    requires b == [] || IsKept(b[0])
    ensures StripLeadingJunk(junk + b) == b
  {
    if junk != [] {
      assert (junk + b)[1..] == junk[1..] + b;
      StripJunkPrefix(junk[1..], b);
    } else {
      assert junk + b == b;
    }
  }

  /** Whatever marker precedes it (whitespace included), cleaning gives back
      a payload that starts with a kept character and does not end in
      whitespace. */
  lemma CleanJunkPrefix(junk: string, b: string)
    requires forall i :: 0 <= i < |junk| ==> !IsKept(junk[i])
    requires b != [] && IsKept(b[0]) && !IsJsWhitespace(b[|b| - 1])
    ensures Clean(junk + b) == b
  {
    KeptNotBlank(b[0]);
    var t := TrimStart(junk);
    TrimAppendNonBlank(junk, b);
    JunkSuffix(junk, t);
    CleanOfTrimmed(junk + b, t, b);
  }

  /** A string that trims to a marker followed by a payload cleans to the
      payload. */
  lemma CleanOfTrimmed(s: string, t: string, b: string)
    requires Trim(s) == t + b
    requires forall i :: 0 <= i < |t| ==> !IsKept(t[i])
    requires b == [] || IsKept(b[0])
    ensures Clean(s) == b
  {
    StripJunkPrefix(t, b);
  }

  /** No character the cleaning keeps is whitespace. */
  lemma KeptNotBlank(c: char)
    requires IsKept(c)
    ensures !IsJsWhitespace(c)
  {
  }

  lemma JunkSuffix(junk: string, t: string)
    requires |t| <= |junk| && t == junk[|junk| - |t|..]
    requires forall i :: 0 <= i < |junk| ==> !IsKept(junk[i])
    ensures forall i :: 0 <= i < |t| ==> !IsKept(t[i])
  {
    forall i | 0 <= i < |t| ensures !IsKept(t[i]) {
      assert t[i] == junk[|junk| - |t| + i];
    }
  }

  /** A JavaScript property read: None is `undefined`. Only objects have the
      properties `o`, `lat` and `lng`. */
  function Property(v: Json, key: string): Option<Json>
  {
    match v
    case JObject(fields) => if key in fields then Some(fields[key]) else None
    case _ => None
  }

  /** `const { o: { lat, lng } = {} } = parsed`, then the `typeof` tests: a
      coordinate exactly when `o` is present and holds numbers at `lat` and
      `lng`; destructuring fails on a null document or a null `o`. */
  function Coordinates(parsed: Json): (r: Result<Coord, DecodeError>)
    ensures r.Success? <==>
      (Property(parsed, "o").Some?
       && Property(Property(parsed, "o").value, "lat").GetOr(JNull).JNumber?
       && Property(Property(parsed, "o").value, "lng").GetOr(JNull).JNumber?)
    ensures r.Success? ==>
      Property(Property(parsed, "o").value, "lat") == Some(JNumber(r.value.lat)) &&
      Property(Property(parsed, "o").value, "lng") == Some(JNumber(r.value.lng))
    ensures r.Failure? ==>
      (r.error == NullDestructure <==> parsed.JNull? || Property(parsed, "o") == Some(JNull))
    ensures r.Failure? ==> r.error == NullDestructure || r.error == MissingLatLng
  {
    if parsed.JNull? then Failure(NullDestructure)
    else
      match Property(parsed, "o")
      case Some(JNull) => Failure(NullDestructure)
      case o =>
        var obj := o.GetOr(JObject(map[]));
        match (Property(obj, "lat"), Property(obj, "lng"))
        case (Some(JNumber(lat)), Some(JNumber(lng))) => Success(Coord(lat, lng))
        case _ => Failure(MissingLatLng)
  }

  /** What `atob` returns for the cleaned cache string; None when it throws. */
  function Payload(s: string): Option<string>
  {
    Base64.Atob(Clean(s))
  }

  /** The body of `decodeGeocodeCache`, keeping the reason for a null: the
      first stage that fails names it, and a success is the coordinate read
      from the parsed payload. */
  function Decode(cache: Option<string>, parse: string -> Option<Json>): (r: Result<Coord, DecodeError>)
    ensures r == Failure(MissingInput) <==> cache.None?
    ensures r == Failure(BadBase64) <==> cache.Some? && Payload(cache.value).None?
    ensures r == Failure(BadJson) <==>
      cache.Some? && Payload(cache.value).Some? && parse(Payload(cache.value).value).None?
    ensures r.Success? <==>
      (cache.Some? && Payload(cache.value).Some? && parse(Payload(cache.value).value).Some?
       && Coordinates(parse(Payload(cache.value).value).value).Success?)
    ensures r.Success? ==>
      var obj := Property(parse(Payload(cache.value).value).value, "o").value;
      Property(obj, "lat") == Some(JNumber(r.value.lat)) && Property(obj, "lng") == Some(JNumber(r.value.lng))
  {
    match cache
    case None => Failure(MissingInput)
    case Some(s) =>
      match Payload(s)
      case None => Failure(BadBase64)
      case Some(text) =>
        match parse(text)
        case None => Failure(BadJson)
        case Some(parsed) => Coordinates(parsed)
  }

  /** `decodeGeocodeCache(cacheStr)`: total, null on every failure. A
      coordinate comes out exactly when the cleaned string decodes, parses,
      and carries numbers at `o.lat` and `o.lng`, and it is that pair. */
  function DecodeGeocodeCache(cache: Option<string>, parse: string -> Option<Json>): (r: Option<Coord>)
    ensures r.Some? <==>
      (cache.Some? && Payload(cache.value).Some? && parse(Payload(cache.value).value).Some?
       && Coordinates(parse(Payload(cache.value).value).value).Success?)
    ensures r.Some? ==>
      var obj := Property(parse(Payload(cache.value).value).value, "o").value;
      Property(obj, "lat") == Some(JNumber(r.value.lat)) && Property(obj, "lng") == Some(JNumber(r.value.lng))
  {
    Decode(cache, parse).ToOption()
  }

  /** A cache string made of any marker followed by the base64 encoding of a
      JSON document whose `o` holds numeric `lat` and `lng` decodes to
      exactly that pair. */
  lemma DecodeEncoded(junk: string, json: string, parse: string -> Option<Json>, lat: real, lng: real)
    requires forall i :: 0 <= i < |junk| ==> !IsKept(junk[i])
    requires json != [] && forall i :: 0 <= i < |json| ==> json[i] as int < 256
    requires parse(json).Some? && parse(json).value.JObject?
    requires Property(parse(json).value, "o").Some?
    requires Property(Property(parse(json).value, "o").value, "lat") == Some(JNumber(lat))
    requires Property(Property(parse(json).value, "o").value, "lng") == Some(JNumber(lng))
    ensures DecodeGeocodeCache(Some(junk + Base64.Encode(Base64.Bytes(json))), parse) == Some(Coord(lat, lng))
  {
    var e := Base64.Encode(Base64.Bytes(json));
    EncodedIsClean(junk, json);
    Base64.AtobEncode(json);
    DecodePayload(junk + e, json, parse, lat, lng);
  }

  lemma DecodePayload(cache: string, json: string, parse: string -> Option<Json>, lat: real, lng: real)
    requires Payload(cache) == Some(json)
    requires parse(json).Some?
    requires Property(parse(json).value, "o").Some?
    requires Property(Property(parse(json).value, "o").value, "lat") == Some(JNumber(lat))
    requires Property(Property(parse(json).value, "o").value, "lng") == Some(JNumber(lng))
    ensures DecodeGeocodeCache(Some(cache), parse) == Some(Coord(lat, lng))
  {
    var c := Coordinates(parse(json).value);
    assert c.Success? && c.value == Coord(lat, lng);
  }

  lemma EncodedIsClean(junk: string, json: string)
    requires forall i :: 0 <= i < |junk| ==> !IsKept(junk[i])
    requires json != [] && forall i :: 0 <= i < |json| ==> json[i] as int < 256
    ensures Clean(junk + Base64.Encode(Base64.Bytes(json))) == Base64.Encode(Base64.Bytes(json))
  {
    var e := Base64.Encode(Base64.Bytes(json));
    Base64.EncodeChars(Base64.Bytes(json));
    assert IsKept(e[0]) && !IsJsWhitespace(e[|e| - 1]);
    CleanJunkPrefix(junk, e);
  }

  /** The cleaning pattern keeps `_` (it is in `\w`), but `_` is outside the
      base64 alphabet, so a payload that still starts with `_` is rejected. */
  lemma UnderscoreRejected(s: string, parse: string -> Option<Json>)
    requires Clean(s) != [] && Clean(s)[0] == '_'
    ensures Decode(Some(s), parse) == Failure(BadBase64)
    ensures DecodeGeocodeCache(Some(s), parse) == None
  {
    Base64.AtobRejects(Clean(s), 0);
    assert Payload(s).None?;
  }

  /** An empty cache string, one of whitespace only, or one made only of a
      status marker cleans to `""`; `atob("")` is `""`, and `JSON.parse("")`
      throws (JSON has no empty text), so the result is null. */
  lemma BlankCacheIsNull(s: string, parse: string -> Option<Json>)
    requires forall i :: 0 <= i < |s| ==> !IsKept(s[i])
    requires parse("") == None
    ensures Decode(Some(s), parse) == Failure(BadJson)
    ensures DecodeGeocodeCache(Some(s), parse) == None
  {
    CleanOfMarker(s);
    assert Base64.Latin1([]) == "";
    assert Payload(s) == Some("");
  }

  /** A string with no kept character cleans to `""`. */
  lemma CleanOfMarker(s: string)
    requires forall i :: 0 <= i < |s| ==> !IsKept(s[i])
    ensures Clean(s) == ""
  {
    var t := Trim(s);
    TrimIsSlice(s);
    forall i | 0 <= i < |t| ensures !IsKept(t[i]) {
      assert t[i] in s;
    }
  }

  /** The null cases the source lists: no input, a document without `o`, and
      a `lat` or `lng` that is not a number. */
  lemma NullCases(s: string, parse: string -> Option<Json>)
    ensures DecodeGeocodeCache(None, parse) == None
    ensures (var text := Payload(s);
             text.Some? && parse(text.value).Some? &&
             (Property(parse(text.value).value, "o").None?
              || !Property(Property(parse(text.value).value, "o").value, "lat").GetOr(JNull).JNumber?
              || !Property(Property(parse(text.value).value, "o").value, "lng").GetOr(JNull).JNumber?))
            ==> DecodeGeocodeCache(Some(s), parse) == None
  {
  }
}
