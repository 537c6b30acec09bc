/**
 * The upload side of the application routes: which files the upload
 * middleware lets through (field, count, MIME type, size), the name a stored
 * file gets, the extension rule of Node's `path.extname`, the content-type
 * table of the file route, and the JSON text stored for the other
 * certificates.
 */
module Uploads {
  import opened Common
  import opened Text

  const TranscriptField: string := "transcript_file"
  const EnglishField: string := "english_certificate_file"
  const OthersField: string := "other_certificates_files"

  /** `fileSize: 5 * 1024 * 1024`. */
  const MaxFileSize: nat := 5 * 1024 * 1024

  /** The MIME types the file filter accepts. */
  predicate AllowedType(mime: string)
  {
    mime == "application/pdf" || mime == "image/jpeg" || mime == "image/png"
  }

  /**
   * A file of a multipart request, in arrival order: its form field, the
   * declared MIME type, its size in bytes, the client's file name, and the
   * `Date.now()` reading taken when its stored name was chosen.
   */
  datatype Upload = Upload(fieldName: string, mimeType: string, size: nat, originalName: string, receivedAt: nat)

  /** The `maxCount` of each declared field; an undeclared field may carry no file. */
  function MaxCount(field: string): nat
  {
    if field == TranscriptField then 1
    else if field == EnglishField then 1
    else if field == OthersField then 5
    else 0
  }

  predicate KnownField(field: string)
  {
    field == TranscriptField || field == EnglishField || field == OthersField
  }

  /** How many of the files carry field `f`. */
  function Count(us: seq<Upload>, f: string): (n: nat)
    ensures n <= |us|
  {
    if us == [] then 0
    else Count(us[..|us| - 1], f) + (if us[|us| - 1].fieldName == f then 1 else 0)
  }

  /**
   * Why the upload middleware rejects a request: a file in an undeclared field
   * or beyond its field's `maxCount` (a `MulterError`), a MIME type outside the
   * filter (a plain `Error`), or a file over the size limit (a `MulterError`).
   */
  datatype IntakeError = UnexpectedField | InvalidType | FileTooLarge

  /** `MulterError` becomes 400, any other error 500. */
  function ErrorStatus(e: IntakeError): (status: int)
    ensures status == 500 <==> e == InvalidType
    ensures status == 400 <==> e != InvalidType
  {
    if e == InvalidType then 500 else 400
  }

  /** The verdict on the `i`-th file, given the files that arrived before it. */
  function FileError(us: seq<Upload>, i: nat): Option<IntakeError>
    requires i < |us|
  {
    var u := us[i];
    if Count(us[..i], u.fieldName) >= MaxCount(u.fieldName) then Some(UnexpectedField)
    else if !AllowedType(u.mimeType) then Some(InvalidType)
    else if u.size > MaxFileSize then Some(FileTooLarge)
    else None
  }

  /** The first rejected file decides; the files stored before it are removed again. */
  function IntakeFrom(us: seq<Upload>, i: nat): Option<IntakeError>
    requires i <= |us|
    decreases |us| - i
  {
    if i == |us| then None
    else if FileError(us, i).Some? then FileError(us, i)
    else IntakeFrom(us, i + 1)
  }

  function Intake(us: seq<Upload>): Option<IntakeError>
  {
    IntakeFrom(us, 0)
  }

  /** A file that passes the filter and the size limit in a declared field. */
  predicate ValidFile(u: Upload)
  {
    KnownField(u.fieldName) && AllowedType(u.mimeType) && u.size <= MaxFileSize
  }

  /** The per-field limits: at most one transcript, one English certificate and five other certificates. */
  predicate WithinCounts(us: seq<Upload>)
  {
    Count(us, TranscriptField) <= 1 && Count(us, EnglishField) <= 1 && Count(us, OthersField) <= 5
  }

  lemma CountStep(us: seq<Upload>, i: nat, f: string)
    requires i < |us|
    ensures Count(us[..i + 1], f) == Count(us[..i], f) + (if us[i].fieldName == f then 1 else 0)
  {
    assert us[..i + 1][..i] == us[..i];
  }

  lemma {:induction false} CountMonotone(us: seq<Upload>, i: nat, j: nat, f: string)
    requires i <= j <= |us|
    ensures Count(us[..i], f) <= Count(us[..j], f)
    decreases j - i
  {
    if i < j {
      CountStep(us, i, f);
      CountMonotone(us, i + 1, j, f);
    }
  }

  /** Counting over a concatenation adds the counts of the two parts. */
  lemma {:induction false} CountAppend(a: seq<Upload>, b: seq<Upload>, f: string)
    ensures Count(a + b, f) == Count(a, f) + Count(b, f)
    decreases |b|
  {
    if b != [] {
      var init := b[..|b| - 1];
      CountAppend(a, init, f);
      assert (a + b)[..|a + b| - 1] == a + init;
      assert (a + b)[|a + b| - 1] == b[|b| - 1];
    } else {
      assert a + b == a;
    }
  }

  /** Files that all carry field `g` count fully for `g` and not at all for another field. */
  lemma {:induction false} CountUniform(us: seq<Upload>, g: string, f: string)
    requires forall k :: 0 <= k < |us| ==> us[k].fieldName == g
    ensures Count(us, f) == if f == g then |us| else 0
    decreases |us|
  {
    if us != [] {
      CountUniform(us[..|us| - 1], g, f);
    }
  }

  lemma {:induction false} IntakeFromNone(us: seq<Upload>, i: nat)
    requires i <= |us|
    ensures IntakeFrom(us, i).None? <==> forall k :: i <= k < |us| ==> FileError(us, k).None?
    decreases |us| - i
  {
    if i < |us| {
      IntakeFromNone(us, i + 1);
    }
  }

  /** When every file passes, no field holds more files than its `maxCount`. */
  lemma {:induction false} PassingPrefixWithinCounts(us: seq<Upload>, n: nat, f: string)
    requires n <= |us|
    requires forall k :: 0 <= k < n ==> FileError(us, k).None?
    ensures Count(us[..n], f) <= MaxCount(f)
  {
    if n > 0 {
      PassingPrefixWithinCounts(us, n - 1, f);
      CountStep(us, n - 1, f);
      assert FileError(us, n - 1).None?;
    }
  }

  /**
   * The upload middleware accepts a request exactly when every file is in a
   * declared field, has an allowed MIME type and is at most 5 MiB (5,242,880
   * bytes is accepted), and no field exceeds its count.
   */
  lemma IntakeAcceptsIff(us: seq<Upload>)
    ensures Intake(us).None? <==> (forall k :: 0 <= k < |us| ==> ValidFile(us[k])) && WithinCounts(us)
  {
    IntakeFromNone(us, 0);
    if Intake(us).None? {
      AcceptedFilesAreValid(us);
    }
    if (forall k :: 0 <= k < |us| ==> ValidFile(us[k])) && WithinCounts(us) {
      ValidFilesAreAccepted(us);
    }
  }

  /** A request the middleware accepts holds only valid files, within the counts. */
  lemma AcceptedFilesAreValid(us: seq<Upload>)
    requires forall k :: 0 <= k < |us| ==> FileError(us, k).None?
    ensures forall k :: 0 <= k < |us| ==> ValidFile(us[k])
    ensures WithinCounts(us)
  {
    assert us[..|us|] == us;
    PassingPrefixWithinCounts(us, |us|, TranscriptField);
    PassingPrefixWithinCounts(us, |us|, EnglishField);
    PassingPrefixWithinCounts(us, |us|, OthersField);
    forall k | 0 <= k < |us|
      ensures ValidFile(us[k])
    {
      assert FileError(us, k).None?;
    }
  }

  /** Valid files within the counts pass one by one. */
  lemma ValidFilesAreAccepted(us: seq<Upload>)
    requires forall k :: 0 <= k < |us| ==> ValidFile(us[k])
    requires WithinCounts(us)
    ensures forall k :: 0 <= k < |us| ==> FileError(us, k).None?
  {
    assert us[..|us|] == us;
    forall k | 0 <= k < |us|
      ensures FileError(us, k).None?
    {
      var f := us[k].fieldName;
      CountStep(us, k, f);
      CountMonotone(us, k + 1, |us|, f);
    }
  }

  /** Any file of type other than pdf, jpeg or png fails the request with status 500, not 400. */
  lemma InvalidTypeIsServerError(us: seq<Upload>)
    requires Intake(us) == Some(InvalidType)
    ensures ErrorStatus(Intake(us).value) == 500
  {
  }

  /** `file.fieldname.replace('_file', '')`. */
  function FieldPrefix(field: string): string
  {
    ReplaceFirst(field, "_file", "")
  }

  /**
   * The first `_file` is dropped, so the transcript is stored as
   * `transcript_...`, the English certificate as `english_certificate_...` and
   * the other certificates as `other_certificatess_...` (the `s` of `_files`
   * stays).
   */
  lemma FieldPrefixes()
    ensures FieldPrefix(TranscriptField) == "transcript"
    ensures FieldPrefix(EnglishField) == "english_certificate"
    ensures FieldPrefix(OthersField) == "other_certificatess"
  {
    TranscriptPrefix(TranscriptField);
    EnglishPrefix(EnglishField);
    OthersPrefix(OthersField);
  }

  /** `replace('_file', '')` on a field whose first `_file` starts at `k`. */
  lemma DropFirstFileSuffix(field: string, k: nat)
    requires k + 5 <= |field| && field[k..k + 5] == "_file"
    requires forall j :: 0 <= j < k && field[j] == '_' ==> field[j + 1] != 'f'
    ensures FieldPrefix(field) == field[..k] + field[k + 5..]
  {
    forall j | 0 <= j < k
      ensures !StartsWith(field[j..], "_file")
    {
      if field[j] == '_' {
        NotStartsWithAt(field, "_file", j, 1);
      } else {
        NotStartsWithAt(field, "_file", j, 0);
      }
    }
    ReplaceFirstAt(field, "_file", "", k);
  }

  lemma TranscriptPrefix(t: string)
    requires t == TranscriptField
    ensures FieldPrefix(t) == "transcript"
  {
    assert forall j :: 0 <= j < 10 ==> t[j] != '_';
    DropFirstFileSuffix(t, 10);
    assert t[..10] + t[15..] == "transcript";
  }

  lemma EnglishPrefix(e: string)
    requires e == EnglishField
    ensures FieldPrefix(e) == "english_certificate"
  {
    assert forall j :: 0 <= j < 19 && e[j] == '_' ==> j == 7;
    DropFirstFileSuffix(e, 19);
    assert e[..19] + e[24..] == "english_certificate";
  }

  lemma OthersPrefix(o: string)
    requires o == OthersField
    ensures FieldPrefix(o) == "other_certificatess"
  {
    assert forall j :: 0 <= j < 18 && o[j] == '_' ==> j == 5;
    DropFirstFileSuffix(o, 18);
    assert o[..18] + o[23..] == "other_certificatess";
  }

  /** The field prefixes hold no `.`. */
  lemma FieldPrefixNoDot(field: string)
    requires KnownField(field)
    ensures NoDot(FieldPrefix(field)) && FieldPrefix(field) != []
  {
    FieldPrefixes();
    PrefixNoDot(FieldPrefix(field));
  }

  /** The three prefixes are non-empty and have no `.`. */
  lemma PrefixNoDot(prefix: string)
    requires prefix == "transcript" || prefix == "english_certificate" || prefix == "other_certificatess"
    ensures NoDot(prefix) && prefix != []
  {
  }

  /** The index of the last `.` of `s`, or -1. */
  function LastDot(s: string): (r: int)
    ensures -1 <= r < |s|
    ensures r >= 0 ==> s[r] == '.'
    ensures forall i :: r < i < |s| ==> s[i] != '.'
  {
    if s == [] then -1
    else if s[|s| - 1] == '.' then |s| - 1
    else LastDot(s[..|s| - 1])
  }

  /**
   * `path.extname(name)` for a name without `/`: from the last `.` to the end,
   * or empty when there is no `.`, when the only leading `.` starts the name
   * (as in `.profile`), or for `..`.
   */
  function ExtName(name: string): (ext: string)
    ensures ext == [] || (ext[0] == '.' && forall i :: 1 <= i < |ext| ==> ext[i] != '.')
    ensures |ext| <= |name| && ext == name[|name| - |ext|..]
  {
    var d := LastDot(name);
    if d <= 0 || name == ".." then "" else name[d..]
  }

  /** `${fileType}_${userId}_${Date.now()}${ext}`. */
  function StoredName(u: Upload, userId: nat): string
  {
    FieldPrefix(u.fieldName) + "_" + Decimal(userId) + "_" + Decimal(u.receivedAt) + ExtName(u.originalName)
  }

  predicate NoDot(s: string)
  {
    forall i :: 0 <= i < |s| ==> s[i] != '.'
  }

  lemma NoDotConcat(s: string, t: string)
    requires NoDot(s) && NoDot(t)
    ensures NoDot(s + t)
  {
    assert forall i :: |s| <= i < |s + t| ==> (s + t)[i] == t[i - |s|];
  }

  lemma DigitsHaveNoDot(s: string)
    requires AllDigits(s)
    ensures NoDot(s)
  {
  }

  lemma LastDotOfDotFreePrefix(p: string, ext: string)
    requires NoDot(p)
    requires ext == [] || (ext[0] == '.' && forall i :: 1 <= i < |ext| ==> ext[i] != '.')
    ensures LastDot(p + ext) == if ext == [] then -1 else |p|
  {
    var s := p + ext;
    if ext == [] {
      assert s == p;
    } else {
      assert s[|p|] == '.';
      assert forall i :: |p| < i < |s| ==> s[i] == ext[i - |p|];
    }
  }

  /**
   * The stored name keeps the client's extension: the file route later reads
   * back exactly the extension the client's file name had.
   */
  lemma StoredNameKeepsExtension(u: Upload, userId: nat)
    requires KnownField(u.fieldName)
    ensures ExtName(StoredName(u, userId)) == ExtName(u.originalName)
  {
    var a, b, c := FieldPrefix(u.fieldName), Decimal(userId), Decimal(u.receivedAt);
    FieldPrefixNoDot(u.fieldName);
    DigitsHaveNoDot(b);
    DigitsHaveNoDot(c);
    NoDotConcat(a, "_");
    NoDotConcat(a + "_", b);
    NoDotConcat(a + "_" + b, "_");
    NoDotConcat(a + "_" + b + "_", c);
    var p := a + "_" + b + "_" + c;
    var ext := ExtName(u.originalName);
    assert StoredName(u, userId) == p + ext;
    LastDotOfDotFreePrefix(p, ext);
    assert |p| > 2;
  }

  /** The content-type table of the file route, keyed by the lower-cased extension. */
  function ContentType(ext: string): string
  {
    var e := LowerAscii(ext);
    if e == ".pdf" then "application/pdf"
    else if e == ".jpg" || e == ".jpeg" then "image/jpeg"
    else if e == ".png" then "image/png"
    else "application/octet-stream"
  }

  /**
   * A file is served as one of the upload MIME types exactly when its
   * lower-cased extension is in the table, and as `application/octet-stream`
   * otherwise.
   */
  lemma ContentTypeIsTableOrDefault(ext: string)
    ensures AllowedType(ContentType(ext)) <==> LowerAscii(ext) in {".pdf", ".jpg", ".jpeg", ".png"}
    ensures !AllowedType(ContentType(ext)) ==> ContentType(ext) == "application/octet-stream"
  {
  }

  /** `JSON.stringify` of one string: quotes around its escaped characters. */
  function JsonString(s: string): (r: string)
    ensures PlainName(s) ==> r == "\"" + s + "\""
  {
    "\"" + Escape(s) + "\""
  }

  /** One character of a JSON string: `"` and `\\` and the characters below U+0020 are escaped. */
  function EscapeChar(c: char): (r: string)
    ensures (c != '"' && c != '\\' && c >= ' ') <==> r == [c]
    ensures r != [c] ==> |r| >= 2
  {
    if c == '"' then "\\\""
    else if c == '\\' then "\\\\"
    else if c == '\U{8}' then "\\b"
    else if c == '\U{C}' then "\\f"
    else if c == '\n' then "\\n"
    else if c == '\r' then "\\r"
    else if c == '\t' then "\\t"
    else if c < ' ' then "\\u00" + [HexDigit(c as int / 16), HexDigit(c as int % 16)]
    else [c]
  }

  /** A lower-case hexadecimal digit, as `JSON.stringify` writes them. */
  function HexDigit(d: int): char
    requires 0 <= d < 16
  {
    if d < 10 then '0' + d as char else 'a' + (d - 10) as char
  }

  /** The characters of a JSON string between its quotes. */
  function Escape(s: string): (r: string)
    ensures |r| >= |s|
    ensures PlainName(s) <==> r == s
  {
    if s == [] then []
    else
      var e := EscapeChar(s[0]);
      var rest := Escape(s[1..]);
      assert PlainName(s) <==> PlainName(s[1..]) && e == [s[0]] by {
        assert forall i :: 1 <= i < |s| ==> s[i] == s[1..][i - 1];
      }
      e + rest
  }

  /** A tab in a name is written `\\t`, so the JSON text does not hold the name verbatim. */
  lemma TabIsEscaped()
    ensures JsonString("a\tb") == "\"a\\tb\""
  {
    assert Escape("b") == "b";
    assert Escape("\tb") == "\\t" + "b";
  }

  /** `JSON.stringify(names)` for an array of strings. */
  function JsonArray(names: seq<string>): string
  {
    "[" + JsonItems(names) + "]"
  }

  function JsonItems(names: seq<string>): string
  {
    if names == [] then ""
    else if |names| == 1 then JsonString(names[0])
    else JsonString(names[0]) + "," + JsonItems(names[1..])
  }

  /** A name that JSON leaves as it is: no `"`, no `\\` and no character below U+0020. */
  predicate PlainName(s: string)
  {
    forall i :: 0 <= i < |s| ==> s[i] != '"' && s[i] != '\\' && s[i] >= ' '
  }

  lemma {:induction false} ContainsInMiddle(a: string, t: string, b: string)
    ensures Contains(a + t + b, t)
    decreases |a|
  {
    if a == [] {
      assert (a + t + b)[..|t|] == t;
    } else {
      assert (a + t + b)[1..] == a[1..] + t + b;
      ContainsInMiddle(a[1..], t, b);
    }
  }

  /** Each plain name occurs in the JSON text of a list that holds it, between the returned texts. */
  lemma {:induction false} JsonItemsContainName(names: seq<string>, k: nat) returns (a: string, b: string)
    requires k < |names| && PlainName(names[k])
    ensures JsonItems(names) == a + names[k] + b
  {
    var rest := JsonItemsSplit(names);
    if k == 0 {
      a, b := QuotedBefore(names[0], rest);
    } else {
      assert names[1..][k - 1] == names[k];
      var a', b' := JsonItemsContainName(names[1..], k - 1);
      a, b := JsonString(names[0]) + "," + a', b';
      assert rest == "," + (a' + names[k] + b');
    }
  }

  /** The JSON text of a list is its first item's text followed by `rest`, which is the comma and the others' text when there are others. */
  lemma JsonItemsSplit(names: seq<string>) returns (rest: string)
    requires |names| > 0
    ensures JsonItems(names) == JsonString(names[0]) + rest
    ensures |names| > 1 ==> rest == "," + JsonItems(names[1..])
  {
    rest := if |names| == 1 then "" else "," + JsonItems(names[1..]);
  }

  /** The JSON text of a plain name followed by `rest` holds the name between a quote and a quote before `rest`. */
  lemma QuotedBefore(n: string, rest: string) returns (a: string, b: string)
    requires PlainName(n)
    ensures JsonString(n) + rest == a + n + b
  {
    a, b := "\"", "\"" + rest;
    calc {
      JsonString(n) + rest;
      == ("\"" + n + "\"") + rest;
      == a + n + b;
    }
  }

  lemma JsonArrayContainsName(names: seq<string>, k: nat)
    requires k < |names| && PlainName(names[k])
    ensures Contains(JsonArray(names), names[k])
  {
    var a, b := JsonItemsContainName(names, k);
    assert JsonArray(names) == ("[" + a) + names[k] + (b + "]");
    ContainsInMiddle("[" + a, names[k], b + "]");
  }

  /** The stored names of the files, in arrival order. */
  function StoredNames(us: seq<Upload>, userId: nat): (r: seq<string>)
    ensures |r| == |us|
    ensures forall i :: 0 <= i < |us| ==> r[i] == StoredName(us[i], userId)
  {
    seq(|us|, i requires 0 <= i < |us| => StoredName(us[i], userId))
  }

  /** `req.files[f].map(file => file.filename)`: the stored names of the files of field `f`, in arrival order. */
  function FieldNames(us: seq<Upload>, f: string, userId: nat): (r: seq<string>)
    ensures |r| == Count(us, f)
  {
    if us == [] then []
    else
      var n := |us| - 1;
      FieldNames(us[..n], f, userId) + (if us[n].fieldName == f then [StoredName(us[n], userId)] else [])
  }

  /** The `i`-th name of field `f` is the stored name of a file of that field, the `k`-th to arrive. */
  lemma {:induction false} FieldNameOrigin(us: seq<Upload>, f: string, userId: nat, i: nat) returns (k: nat)
    requires i < |FieldNames(us, f, userId)|
    ensures k < |us| && us[k].fieldName == f && FieldNames(us, f, userId)[i] == StoredName(us[k], userId)
  {
    var n := |us| - 1;
    var front := FieldNames(us[..n], f, userId);
    if i < |front| {
      k := FieldNameOrigin(us[..n], f, userId, i);
      assert us[..n][k] == us[k];
    } else {
      k := n;
    }
  }

  /** The names of the listed files, as a set. */
  function NameSet(names: seq<string>): (r: set<string>)
    ensures forall i :: 0 <= i < |names| ==> names[i] in r
    ensures forall f :: f in r ==> exists i :: 0 <= i < |names| && names[i] == f
  {
    set i | 0 <= i < |names| :: names[i]
  }

  /** The upload directory, as the set of names of the files stored in it. */
  class UploadDir {
    var files: set<string>

    constructor ()
      ensures files == {}
    {
      files := {};
    }

    /**
     * Removes each listed file that exists (`fs.existsSync`, then
     * `fs.unlinkSync`); absent names and repeated names are skipped.
     */
    method Unlink(names: seq<string>)
      modifies this
      ensures files == old(files) - NameSet(names)
    {
      var k := 0;
      while k < |names|
        invariant 0 <= k <= |names|
        invariant files == old(files) - NameSet(names[..k])
      {
        if names[k] in files {
          files := files - {names[k]};
        }
        assert NameSet(names[..k + 1]) == NameSet(names[..k]) + {names[k]} by {
          assert names[..k + 1] == names[..k] + [names[k]];
        }
        k := k + 1;
      }
      assert names[..k] == names;
    }
  }

  /** Unlinking the same names a second time changes nothing. */
  lemma UnlinkTwiceIsUnlinkOnce(files: set<string>, names: seq<string>)
    ensures (files - NameSet(names)) - NameSet(names) == files - NameSet(names)
  {
  }
}
