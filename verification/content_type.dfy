/**
 The upload handler's content-type resolver: the text after the last `.` of a file
 name, lowercased, looked up in a fixed table of seven extensions, with a generic
 binary type for everything else.

 The code looks the extension up with `types[ext]` on an object literal, which also
 finds the members every JavaScript object inherits. `ContentTypeAsWritten` models that
 lookup; `ContentType` is the table-only lookup the rest of the model uses.
 */
module ContentTypes {
  import opened Js
  import opened Text

  const OctetStream := "application/octet-stream"

  /** The extension table, keyed by lower-case extension. */
  const Table: map<string, string> := map[
    "jpeg" := "image/jpeg",
    "jpg" := "image/jpeg",
    "png" := "image/png",
    "gif" := "image/gif",
    "pdf" := "application/pdf",
    "mp4" := "video/mp4",
    "webm" := "video/webm"
  ]

  /** Every type the resolver is meant to produce: the table's values and the fallback. */
  const KnownTypes: set<string> := {
    "image/jpeg", "image/png", "image/gif", "application/pdf",
    "video/mp4", "video/webm", OctetStream
  }

  /** `filename.split(".").pop()?.toLowerCase()`; `pop` on a split never yields
      `undefined`, so the optional chain and the later `ext || ""` change nothing. */
  function Extension(fileName: string): (ext: string)
    ensures ext == LowerAscii(LastPiece(fileName, '.'))
    ensures |ext| <= |fileName|
    ensures forall i :: 0 <= i < |ext| ==> ext[i] != '.' && !IsUpperAscii(ext[i])
  {
    var last := LastPiece(fileName, '.');
    assert forall i :: 0 <= i < |last| ==> last[i] != '.';
    LowerAscii(last)
  }

  /** The content type of an upload: the table entry of the extension, or the
      generic binary type when the extension is not in the table. */
  function ContentType(fileName: string): (r: string)
    ensures r in KnownTypes
    ensures r == OctetStream <==> Extension(fileName) !in Table
  {
    var ext := Extension(fileName);
    TableTypesAreKnown(ext);
    if ext in Table then Table[ext] else OctetStream
  }

  /** Every table entry is a known type other than the fallback. */
  lemma TableTypesAreKnown(ext: string)
    ensures ext in Table ==> Table[ext] in KnownTypes && Table[ext] != OctetStream
  {
  }

  /** The extension of `stem.raw` is `raw` lowercased, whatever the stem holds. */
  lemma ExtensionOfDottedName(stem: string, raw: string)
    requires '.' !in raw
    ensures Extension(stem + "." + raw) == LowerAscii(raw)
  {
    LastPieceOfJoined(stem, '.', raw);
  }

  /** The type of `stem + "." + ext` is decided by `ext` alone, whatever the stem
      holds (dots included), and letter case in `ext` does not matter. */
  lemma ContentTypeOfDottedName(stem: string, ext: string)
    requires '.' !in ext
    ensures ContentType(stem + "." + ext) ==
      (if LowerAscii(ext) in Table then Table[LowerAscii(ext)] else OctetStream)
  {
    LastPieceOfJoined(stem, '.', ext);
  }

  /** A name without a dot is looked up whole. */
  lemma ContentTypeOfDotlessName(name: string)
    requires '.' !in name
    ensures ContentType(name) ==
      (if LowerAscii(name) in Table then Table[LowerAscii(name)] else OctetStream)
  {
    PiecesOfUnseparated(name, '.');
  }

  /** Two names whose final segments agree up to ASCII case get the same type. */
  lemma ContentTypeIgnoresCase(stem1: string, ext1: string, stem2: string, ext2: string)
    requires '.' !in ext1 && '.' !in ext2
    requires LowerAscii(ext1) == LowerAscii(ext2)
    ensures ContentType(stem1 + "." + ext1) == ContentType(stem2 + "." + ext2)
  {
    ContentTypeOfDottedName(stem1, ext1);
    ContentTypeOfDottedName(stem2, ext2);
  }

  /** `x.JPG` is a JPEG image (the name is a parameter so that the solver does not
      evaluate the resolver on the literal). */
  lemma UpperCaseExample(name: string)
    requires name == "x.JPG"
    ensures ContentType(name) == "image/jpeg"
  {
    assert name == "x" + "." + "JPG";
    assert LowerAscii("JPG") == "jpg";
    ContentTypeOfDottedName("x", "JPG");
  }

  /** Only the last segment counts: `a.pdf.png` is a PNG image. */
  lemma LastSegmentExample(name: string)
    requires name == "a.pdf.png"
    ensures ContentType(name) == "image/png"
  {
    assert name == "a.pdf" + "." + "png";
    assert LowerAscii("png") == "png";
    ContentTypeOfDottedName("a.pdf", "png");
  }

  /** A dotless name is looked up whole: `pdf` is a PDF document. */
  lemma DotlessExample(name: string)
    requires name == "pdf"
    ensures ContentType(name) == "application/pdf"
  {
    assert '.' !in name;
    assert LowerAscii("pdf") == "pdf";
    ContentTypeOfDotlessName(name);
  }

  // ---------------------------------------------------------------------------
  // The lookup as written: `types[ext || ""] || "application/octet-stream"`.

  /** A JavaScript value the lookup can produce: a string, or an inherited object
      member (a function, or the prototype object itself), which is truthy. */
  datatype JsValue = JsString(text: string) | Inherited(member: string)

  /** The members of `Object.prototype`, which `types[key]` finds when `key` is not
      one of the table's own keys. */
  const ObjectPrototypeMembers: set<string> := {
    "constructor", "__defineGetter__", "__defineSetter__", "hasOwnProperty",
    "__lookupGetter__", "__lookupSetter__", "isPrototypeOf", "propertyIsEnumerable",
    "toString", "valueOf", "toLocaleString", "__proto__"
  }

  /** `types[key]` on the object literal: an own key, else an inherited member,
      else `undefined`. */
  function PropertyGet(key: string): (found: Option<JsValue>)
    ensures key in Table ==> found == Some(JsString(Table[key]))
    ensures key !in Table && key in ObjectPrototypeMembers ==> found == Some(Inherited(key))
    ensures found.None? <==> key !in Table && key !in ObjectPrototypeMembers
  {
    if key in Table then Some(JsString(Table[key]))
    else if key in ObjectPrototypeMembers then Some(Inherited(key))
    else None
  }

  predicate Truthy(v: JsValue) {
    match v
    case JsString(t) => t != ""
    case Inherited(_) => true
  }

  /** The content type exactly as the code computes it: the table lookup's string,
      or the inherited member the extension names. Which extensions reach an
      inherited member is `InheritedKeysReachable`. */
  function ContentTypeAsWritten(fileName: string): (r: JsValue)
    ensures r.JsString? ==> r.text == ContentType(fileName)
    ensures r.Inherited? ==> r.member == Extension(fileName) && r.member in ObjectPrototypeMembers
  {
    var found := PropertyGet(Extension(fileName));
    if found.Some? && Truthy(found.value) then found.value else JsString(OctetStream)
  }

  /** A string without upper-case letters differs from one with an upper-case letter
      at index `k`. */
  lemma LowerDiffersFromMixed(ext: string, m: string, k: nat)
    requires forall i :: 0 <= i < |ext| ==> !IsUpperAscii(ext[i])
    requires k < |m| && IsUpperAscii(m[k])
    ensures ext != m
  {
  }

  /** A string without upper-case letters names exactly two inherited members: the
      other ten names carry an upper-case letter. */
  lemma LowerCaseInheritedKeys(ext: string)
    requires forall i :: 0 <= i < |ext| ==> !IsUpperAscii(ext[i])
    ensures ext in ObjectPrototypeMembers <==> ext == "constructor" || ext == "__proto__"
  {
    LowerDiffersFromMixed(ext, "__defineGetter__", 8);
    LowerDiffersFromMixed(ext, "__defineSetter__", 8);
    LowerDiffersFromMixed(ext, "hasOwnProperty", 3);
    LowerDiffersFromMixed(ext, "__lookupGetter__", 8);
    LowerDiffersFromMixed(ext, "__lookupSetter__", 8);
    LowerDiffersFromMixed(ext, "isPrototypeOf", 2);
    LowerDiffersFromMixed(ext, "propertyIsEnumerable", 8);
    LowerDiffersFromMixed(ext, "toString", 2);
    LowerDiffersFromMixed(ext, "valueOf", 5);
    LowerDiffersFromMixed(ext, "toLocaleString", 2);
  }

  /** A lowercased extension reaches exactly two inherited members, `constructor`
      and `__proto__`. */
  lemma InheritedKeysReachable(fileName: string)
    ensures Extension(fileName) in ObjectPrototypeMembers <==>
      Extension(fileName) == "constructor" || Extension(fileName) == "__proto__"
  {
    LowerCaseInheritedKeys(Extension(fileName));
  }

  /** The code's lookup agrees with the table lookup for every name whose
      extension is not one of the two reachable inherited members. */
  lemma AsWrittenAgreesElsewhere(fileName: string)
    requires Extension(fileName) != "constructor" && Extension(fileName) != "__proto__"
    ensures ContentTypeAsWritten(fileName) == JsString(ContentType(fileName))
  {
    InheritedKeysReachable(fileName);
  }

  /** Any name whose last segment lowercases to `constructor` gets the inherited
      `Object` constructor, a function rather than a string, as its content type,
      where the table lookup gives the generic binary type. */
  lemma AsWrittenConstructorSegment(stem: string, ext: string)
    requires '.' !in ext && LowerAscii(ext) == "constructor"
    ensures ContentTypeAsWritten(stem + "." + ext) == Inherited("constructor")
    ensures ContentType(stem + "." + ext) == OctetStream
  {
    LastPieceOfJoined(stem, '.', ext);
  }

  /** The prototype accessor the same way: a last segment that lowercases to `__proto__`
      makes the code return the object's prototype, `Object.prototype`. */
  lemma AsWrittenProtoSegment(stem: string, ext: string)
    requires '.' !in ext && LowerAscii(ext) == "__proto__"
    ensures ContentTypeAsWritten(stem + "." + ext) == Inherited("__proto__")
    ensures ContentType(stem + "." + ext) == OctetStream
  {
    LastPieceOfJoined(stem, '.', ext);
  }

  /** The discrepancy on the concrete name `x.__proto__`. */
  lemma AsWrittenProtoExtension(stem: string, ext: string)
    requires stem == "x" && ext == "__proto__"
    ensures ContentTypeAsWritten(stem + "." + ext) == Inherited("__proto__")
  {
    LowerProto(ext);
    AsWrittenProtoSegment(stem, ext);
  }

  /** `__proto__` has no upper-case letter, so lowercasing leaves it as it is. */
  lemma LowerProto(ext: string)
    requires ext == "__proto__"
    ensures '.' !in ext && LowerAscii(ext) == "__proto__"
  {
    LowerAsciiOfLowerCase(ext);
  }

  /** `Constructor` lowercases to `constructor`: only its first letter changes. */
  lemma LowerConstructor(ext: string)
    requires ext == "Constructor"
    ensures LowerAscii(ext) == "constructor"
  {
    var tail := ext[1..];
    assert tail == "onstructor";
    LowerAsciiOfLowerCase(tail);
    assert LowerAscii(ext) == [LowerChar(ext[0])] + LowerAscii(tail);
  }

  /** The discrepancy on a concrete name, `report.Constructor` (given in two parameters
      so that the solver does not evaluate the resolver on a literal). */
  lemma AsWrittenConstructorExtension(stem: string, ext: string)
    requires stem == "report" && ext == "Constructor"
    ensures ContentTypeAsWritten(stem + "." + ext) == Inherited("constructor")
    ensures ContentType(stem + "." + ext) == OctetStream
  {
    LowerConstructor(ext);
    AsWrittenConstructorSegment(stem, ext);
  }
}
