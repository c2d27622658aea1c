/** The upload rules of middleware/upload.js: which directory a content type
    is stored under, how a stored file name is built from the original one,
    and which MIME types each content type accepts, with the rejection
    message. Strings are sequences of characters; file names are given
    already split into base name and extension. */
module Upload {
  import opened Common

  /** `req.body.type || "document"`. */
  function ContentType(t: Option<string>): (ty: string)
    ensures ty != ""
    ensures TruthyString(t) ==> ty == t.value
    ensures !TruthyString(t) ==> ty == "document"
  {
    if TruthyString(t) then t.value else "document"
  }

  /** The directories created when the module is loaded. */
  const CreatedDirs: seq<string> := ["uploads", "uploads/documents", "uploads/gallery", "uploads/profiles", "uploads/results"]

  /** Content types whose files are stored with the gallery images. */
  const GalleryTypes: set<string> := {"gallery", "about", "news", "event"}

  /** Storage `destination`. Every directory it chooses is one created at load time. */
  function Destination(t: Option<string>): (dir: string)
    ensures dir in CreatedDirs[1..]
  {
    var ty := ContentType(t);
    if ty == "gallery" || ty == "about" || ty == "news" || ty == "event" then "uploads/gallery"
    else if ty == "profile" then "uploads/profiles"
    else if ty == "result" then "uploads/results"
    else "uploads/documents"
  }

  /** The routing table, each row in both directions; a missing type goes to documents. */
  lemma DestinationRoutes(t: Option<string>)
    ensures Destination(t) == "uploads/gallery" <==> ContentType(t) in GalleryTypes
    ensures Destination(t) == "uploads/profiles" <==> ContentType(t) == "profile"
    ensures Destination(t) == "uploads/results" <==> ContentType(t) == "result"
    ensures Destination(t) == "uploads/documents" <==> ContentType(t) !in GalleryTypes + {"profile", "result"}
    ensures !TruthyString(t) ==> Destination(t) == "uploads/documents"
  {
  }

  //  File names

  predicate IsLowerOrDigit(c: char) {
    'a' <= c <= 'z' || IsDigit(c)
  }

  predicate IsUpper(c: char) {
    'A' <= c <= 'Z'
  }

  /** The characters `[a-zA-Z0-9]` the sanitiser keeps. */
  predicate IsAlnum(c: char) {
    IsLowerOrDigit(c) || IsUpper(c)
  }

  function ToLower(c: char): char {
    if IsUpper(c) then (c as int + 32) as char else c
  }

  function ToUpper(c: char): char {
    if 'a' <= c <= 'z' then (c as int - 32) as char else c
  }

  /** One character of `.replace(/[^a-zA-Z0-9]/g, "-").toLowerCase()`. */
  function SanitizeChar(c: char): char {
    if IsAlnum(c) then ToLower(c) else '-'
  }

  /** The sanitised base name: one output character per input character. */
  function Sanitize(s: string): (r: string)
    ensures |r| == |s|
    ensures forall i :: 0 <= i < |s| ==> r[i] == SanitizeChar(s[i])
  {
    if s == [] then [] else [SanitizeChar(s[0])] + Sanitize(s[1..])
  }

  /** Every output character is in `[a-z0-9-]`; letters and digits survive,
      lower-cased, and everything else becomes `-`. */
  lemma SanitizedAlphabet(s: string)
    ensures forall i :: 0 <= i < |s| ==> IsLowerOrDigit(Sanitize(s)[i]) || Sanitize(s)[i] == '-'
    ensures forall i :: 0 <= i < |s| ==> (IsAlnum(s[i]) <==> Sanitize(s)[i] != '-')
    ensures forall i :: 0 <= i < |s| && IsAlnum(s[i]) ==> Sanitize(s)[i] == ToLower(s[i])
  {
  }

  lemma {:induction false} SanitizeIdempotent(s: string)
    ensures Sanitize(Sanitize(s)) == Sanitize(s)
  {
    var once := Sanitize(s);
    var twice := Sanitize(once);
    assert forall i :: 0 <= i < |s| ==> twice[i] == once[i];
  }

  /** `sanitizedName + "-" + uniqueSuffix + fileExt`, the suffix standing for
      the time-and-random part. */
  function FileName(base: string, suffix: string, ext: string): string {
    Sanitize(base) + "-" + suffix + ext
  }

  /** The generated name keeps the original extension and starts with the
      sanitised base name followed by a dash. */
  lemma FileNameShape(base: string, suffix: string, ext: string)
    ensures EndsWith(FileName(base, suffix, ext), ext)
    ensures |FileName(base, suffix, ext)| == |base| + 1 + |suffix| + |ext|
    ensures FileName(base, suffix, ext)[..|base|] == Sanitize(base)
    ensures FileName(base, suffix, ext)[|base|] == '-'
  {
    var name := FileName(base, suffix, ext);
    assert name[|name| - |ext|..] == ext;
  }

  //  The MIME allow-list

  /** A MIME type `major/minor`. */
  function Mime(major: string, minor: string): string {
    major + "/" + minor
  }

  const Pdf := Mime("application", "pdf")
  const Word := Mime("application", "msword")
  const Docx := Mime("application", "vnd.openxmlformats-officedocument.wordprocessingml.document")
  const Xls := Mime("application", "vnd.ms-excel")
  const Xlsx := Mime("application", "vnd.openxmlformats-officedocument.spreadsheetml.sheet")
  const Jpeg := Mime("image", "jpeg")
  const Png := Mime("image", "png")
  const Gif := Mime("image", "gif")
  const Webp := Mime("image", "webp")
  const ImageTypes: seq<string> := [Jpeg, Png, Gif, Webp]
  const DocumentTypes: seq<string> := [Pdf, Word, Docx, Xls, Xlsx, Jpeg, Png]

  /** The own keys of the `allowedTypes` object and their lists. */
  function AllowedTypes(ty: string): Option<seq<string>> {
    if ty in {"gallery", "about", "news", "event", "profile"} then Some(ImageTypes)
    else if ty == "syllabus" then Some([Pdf, Word, Docx])
    else if ty == "datesheet" then Some([Pdf, Word, Docx, Xls, Xlsx])
    else if ty == "result" then Some([Pdf, Xls, Xlsx])
    else if ty == "form" then Some([Pdf])
    else if ty == "document" then Some(DocumentTypes)
    else None
  }

  /** `allowedTypes[type] || allowedTypes.document`, reading own keys only:
      the list a content type is checked against, never an empty one. */
  function AllowedFor(ty: string): (r: seq<string>)
    ensures |r| > 0
  {
    AllowedTypes(ty).GetOr(DocumentTypes)
  }

  /** `m.split("/")[1]`: the text after the first slash, up to the next one. */
  function Subtype(m: string): (r: string)
    requires '/' in m
    ensures '/' !in r
  {
    if m[0] == '/' then UpToSlash(m[1..]) else Subtype(m[1..])
  }

  function UpToSlash(s: string): (r: string)
    ensures '/' !in r
    ensures '/' !in s ==> r == s
  {
    if s == [] || s[0] == '/' then [] else [s[0]] + UpToSlash(s[1..])
  }

  /** Splitting `major/minor` at its only slash gives back `minor`. */
  lemma {:induction false} SubtypeOfMime(major: string, minor: string)
    requires '/' !in major && '/' !in minor
    ensures '/' in Mime(major, minor)
    ensures Subtype(Mime(major, minor)) == minor
  {
    var m := Mime(major, minor);
    assert m[|major|] == '/';
    if major != [] {
      assert m[0] != '/' by { assert m[0] == major[0]; }
      assert m[1..] == Mime(major[1..], minor);
      SubtypeOfMime(major[1..], minor);
    } else {
      assert m[1..] == minor;
    }
  }

  lemma MimeHasSlash(major: string, minor: string)
    ensures '/' in Mime(major, minor)
  {
    assert Mime(major, minor)[|major|] == '/';
  }

  /** Every listed MIME type has a slash, so `split("/")[1]` is defined on it. */
  lemma AllListsWellFormed(ty: string)
    ensures forall m :: m in AllowedFor(ty) ==> '/' in m
  {
    MimeHasSlash("application", "pdf");
    MimeHasSlash("application", "msword");
    MimeHasSlash("application", "vnd.openxmlformats-officedocument.wordprocessingml.document");
    MimeHasSlash("application", "vnd.ms-excel");
    MimeHasSlash("application", "vnd.openxmlformats-officedocument.spreadsheetml.sheet");
    MimeHasSlash("image", "jpeg");
    MimeHasSlash("image", "png");
    MimeHasSlash("image", "gif");
    MimeHasSlash("image", "webp");
  }

  /** `toUpperCase()` on the ASCII text of the table's entries. */
  function Upper(s: string): (r: string)
    ensures |r| == |s| && forall i :: 0 <= i < |s| ==> r[i] == ToUpper(s[i])
  {
    if s == [] then [] else [ToUpper(s[0])] + Upper(s[1..])
  }

  /** `.join(", ")`. */
  function JoinComma(parts: seq<string>): string {
    if |parts| == 0 then ""
    else if |parts| == 1 then parts[0]
    else parts[0] + ", " + JoinComma(parts[1..])
  }

  /** The upper-cased subtypes of an allow-list, in list order. */
  function Labels(allowed: seq<string>): (r: seq<string>)
    requires forall m :: m in allowed ==> '/' in m
    ensures |r| == |allowed|
    ensures forall i :: 0 <= i < |allowed| ==> r[i] == Upper(Subtype(allowed[i]))
  {
    if allowed == [] then [] else [Upper(Subtype(allowed[0]))] + Labels(allowed[1..])
  }

  function RejectionMessage(ty: string, allowed: seq<string>): string
    requires forall m :: m in allowed ==> '/' in m
  {
    "Invalid file type. Only " + JoinComma(Labels(allowed)) + " files are allowed for " + ty + " uploads."
  }

  datatype Verdict = Accept | Reject(message: string) | TypeError

  /** `fileFilter` with the allow-list read through own keys only: the
      evidently intended behaviour. */
  function FileFilter(t: Option<string>, mimetype: string): (v: Verdict)
    ensures v.Accept? <==> mimetype in AllowedFor(ContentType(t))
    ensures !v.TypeError?
  {
    var ty := ContentType(t);
    var allowed := AllowedFor(ty);
    AllListsWellFormed(ty);
    if mimetype in allowed then Accept else Reject(RejectionMessage(ty, allowed))
  }

  /** Property names every plain JavaScript object inherits from `Object.prototype`. */
  const InheritedKeys: set<string> := {
    "constructor", "__proto__", "hasOwnProperty", "isPrototypeOf", "propertyIsEnumerable",
    "toLocaleString", "toString", "valueOf", "__defineGetter__", "__defineSetter__",
    "__lookupGetter__", "__lookupSetter__"}

  /** `fileFilter` as written: `allowedTypes[type]` also finds inherited
      properties, which are truthy but are not arrays, so `allowed.includes`
      throws instead of falling back to the document list. */
  function FileFilterAsWritten(t: Option<string>, mimetype: string): Verdict {
    var ty := ContentType(t);
    if ty in InheritedKeys then TypeError
    else FileFilter(t, mimetype)
  }

  /** A type named after an inherited property breaks the filter, where the
      fallback evidently meant it to be treated as a document upload. */
  lemma InheritedKeyBreaksFilter()
    ensures FileFilterAsWritten(Some("toString"), Pdf) == TypeError
    ensures FileFilter(Some("toString"), Pdf) == Accept
  {
    assert Pdf in AllowedFor("toString");
  }

  /** On every other type the written filter is the intended one. */
  lemma AsWrittenAgreesOffInheritedKeys(t: Option<string>, mimetype: string)
    requires ContentType(t) !in InheritedKeys
    ensures FileFilterAsWritten(t, mimetype) == FileFilter(t, mimetype)
  {
  }

  /** The image content types accept exactly the four image formats. */
  lemma ImageTypesAccept(t: Option<string>, mimetype: string)
    requires ContentType(t) in GalleryTypes + {"profile"}
    ensures FileFilter(t, mimetype).Accept? <==> mimetype in {Jpeg, Png, Gif, Webp}
  {
  }

  /** `form` accepts only PDF. */
  lemma FormAcceptsOnlyPdf(t: Option<string>, mimetype: string)
    requires ContentType(t) == "form"
    ensures FileFilter(t, mimetype).Accept? <==> mimetype == Pdf
  {
  }

  /** An unlisted type is checked against the document list. */
  lemma UnlistedFallsBackToDocument(t: Option<string>, mimetype: string)
    requires AllowedTypes(ContentType(t)).None?
    ensures FileFilter(t, mimetype).Accept? <==> FileFilter(Some("document"), mimetype).Accept?
  {
  }

  /** An unlisted type's rejection quotes the document list's labels, while
      it still names the requested type. */
  lemma UnlistedRejectionQuotesDocuments(t: Option<string>, mimetype: string)
    requires AllowedTypes(ContentType(t)).None? && mimetype !in DocumentTypes
    ensures forall m :: m in DocumentTypes ==> '/' in m
    ensures FileFilter(t, mimetype) == Reject(RejectionMessage(ContentType(t), DocumentTypes))
  {
    AllListsWellFormed("document");
  }

  /** A rejection message ends by naming the type it was built for. */
  lemma RejectionMessageTail(ty: string, allowed: seq<string>)
    requires forall m :: m in allowed ==> '/' in m
    ensures EndsWith(RejectionMessage(ty, allowed), " files are allowed for " + ty + " uploads.")
  {
    var tail := " files are allowed for " + ty + " uploads.";
    var msg := RejectionMessage(ty, allowed);
    assert msg == ("Invalid file type. Only " + JoinComma(Labels(allowed))) + tail;
    assert msg[|msg| - |tail|..] == tail;
  }

  /** The rejection names the requested type even when the list it quotes is
      the document fallback. */
  lemma RejectionNamesRequestedType(t: Option<string>, mimetype: string)
    requires !FileFilter(t, mimetype).Accept?
    ensures FileFilter(t, mimetype).Reject?
    ensures EndsWith(FileFilter(t, mimetype).message, " files are allowed for " + ContentType(t) + " uploads.")
  {
    var ty := ContentType(t);
    AllListsWellFormed(ty);
    RejectionMessageTail(ty, AllowedFor(ty));
  }

  lemma FormRejection()
    ensures Labels([Pdf]) == ["PDF"]
    ensures FileFilter(Some("form"), Png) ==
      Reject("Invalid file type. Only " + "PDF" + " files are allowed for " + "form" + " uploads.")
  {
    MimeLabel("application", "pdf", "PDF");
    LabelsOfOne(Pdf, "PDF");
    assert Png !in AllowedFor("form") by {
      assert Png[0] != Pdf[0];
    }
  }

  /** The labels of a one-entry list, and the list they join to. */
  lemma LabelsOfOne(a: string, la: string)
    requires '/' in a && Upper(Subtype(a)) == la
    ensures Labels([a]) == [la] && JoinComma(Labels([a])) == la
  {
  }

  lemma ImageLabels()
    ensures Labels(ImageTypes) == ["JPEG", "PNG", "GIF", "WEBP"]
  {
    MimeLabel("image", "jpeg", "JPEG");
    MimeLabel("image", "png", "PNG");
    MimeLabel("image", "gif", "GIF");
    MimeLabel("image", "webp", "WEBP");
    LabelsOfFour(Jpeg, Png, Gif, Webp, "JPEG", "PNG", "GIF", "WEBP");
  }

  /** The labels of a four-entry list, given the label of each entry. */
  lemma LabelsOfFour(a: string, b: string, c: string, d: string, la: string, lb: string, lc: string, ld: string)
    requires '/' in a && '/' in b && '/' in c && '/' in d
    requires Upper(Subtype(a)) == la && Upper(Subtype(b)) == lb
    requires Upper(Subtype(c)) == lc && Upper(Subtype(d)) == ld
    ensures Labels([a, b, c, d]) == [la, lb, lc, ld]
  {
    var r := Labels([a, b, c, d]);
    assert r[0] == la && r[1] == lb && r[2] == lc && r[3] == ld;
  }

  /** The label of one MIME type: its minor part, upper-cased. */
  lemma MimeLabel(major: string, minor: string, word: string)
    requires '/' !in major && '/' !in minor && Upper(minor) == word
    ensures '/' in Mime(major, minor) && Upper(Subtype(Mime(major, minor))) == word
  {
    SubtypeOfMime(major, minor);
    MimeHasSlash(major, minor);
  }

  lemma ImageRejection()
    ensures FileFilter(Some("news"), Pdf) ==
      Reject("Invalid file type. Only " + ("JPEG" + ", " + ("PNG" + ", " + ("GIF" + ", " + "WEBP"))) + " files are allowed for " + "news" + " uploads.")
  {
    assert Pdf !in ImageTypes by { assert Pdf[0] == 'a' && Jpeg[0] == Png[0] == Gif[0] == Webp[0] == 'i'; }
    ImageLabels();
    JoinFour("JPEG", "PNG", "GIF", "WEBP");
    assert FileFilter(Some("news"), Pdf) == Reject(RejectionMessage("news", ImageTypes));
  }

  /** Joining four parts puts ", " between each neighbouring pair. */
  lemma JoinFour(a: string, b: string, c: string, d: string)
    ensures JoinComma([a, b, c, d]) == a + ", " + (b + ", " + (c + ", " + d))
  {
    assert [a, b, c, d][1..] == [b, c, d];
    assert [b, c, d][1..] == [c, d];
    assert [c, d][1..] == [d];
    assert JoinComma([c, d]) == c + ", " + d;
    assert JoinComma([b, c, d]) == b + ", " + (c + ", " + d);
  }
}
