/** controllers/kycController.js: the upload filter, the stored file's name and URL, and
    the per-user KYC record. The disk writes and deletions of the upload middleware are not
    modelled. The two clock reads (the file name's, taken while the file arrives, and the
    record's submission time, taken after it is stored) and the random draw of the file
    name are inputs. */
module KycController {
  import opened Util
  import opened Strings
  import opened Db

  /** An uploaded file as the upload middleware describes it. */
  datatype UploadedFile = UploadedFile(originalName: string, mimetype: string, size: nat)

  /** The request: the file of the `document` field, if any, and the body's `document_type`. */
  datatype KycRequest = KycRequest(file: Option<UploadedFile>, documentType: Option<string>)

  /** The upload limit: 5 MiB. */
  const MaxFileSize: nat := 5 * 1024 * 1024

  /** The alternatives of the filter's regular expression `/jpeg|jpg|png|pdf/`. */
  const AllowedWords: seq<string> := ["jpeg", "jpg", "png", "pdf"]

  const FilterError := "Only images (jpeg, jpg, png) and PDFs are allowed"

  /** The last position of `c` in `s`. */
  function LastIndexOf(s: string, c: char): (r: Option<nat>)
    ensures r.Some? ==> r.value < |s|
    decreases |s|
  {
    if s == [] then None
    else if s[|s| - 1] == c then Some(|s| - 1)
    else LastIndexOf(s[..|s| - 1], c)
  }

  /** The position found holds `c` and no later one does; nothing is found only when `c`
      does not occur. */
  lemma {:induction false} LastIndexOfSpec(s: string, c: char)
    ensures LastIndexOf(s, c).None? ==> c !in s
    ensures LastIndexOf(s, c).Some? ==> s[LastIndexOf(s, c).value] == c && c !in s[LastIndexOf(s, c).value + 1..]
    decreases |s|
  {
    if s != [] && s[|s| - 1] != c {
      var r := LastIndexOf(s[..|s| - 1], c);
      LastIndexOfSpec(s[..|s| - 1], c);
      assert s == s[..|s| - 1] + [s[|s| - 1]];
      if r.Some? {
        assert s[r.value + 1..] == s[..|s| - 1][r.value + 1..] + [s[|s| - 1]];
      }
    }
  }

  /** The path without its trailing slashes. */
  function StripTrailingSlashes(s: string): (r: string)
    ensures r <= s
    ensures r == [] || r[|r| - 1] != '/'
    decreases |s|
  {
    if s != [] && s[|s| - 1] == '/' then StripTrailingSlashes(s[..|s| - 1]) else s
  }

  /** The last path segment. */
  function Basename(path: string): string {
    var t := StripTrailingSlashes(path);
    match LastIndexOf(t, '/')
    case None => t
    case Some(i) => t[i + 1..]
  }

  /** The last segment has no '/' and its characters come from the path. */
  lemma BasenameSpec(path: string)
    ensures '/' !in Basename(path)
    ensures forall c :: c in Basename(path) ==> c in path
  {
    var t := StripTrailingSlashes(path);
    LastIndexOfSpec(t, '/');
    assert forall c :: c in t ==> c in path;
  }

  /** `path.extname` (POSIX): from the last '.' of the last segment to its end, or nothing
      when the segment has no '.', begins with its last '.', or is "..". */
  function Extname(path: string): string {
    var b := Basename(path);
    match LastIndexOf(b, '.')
    case None => ""
    case Some(d) => if d == 0 || b == ".." then "" else b[d..]
  }

  /** `/jpeg|jpg|png|pdf/.test(s)`: the expression is not anchored, so any occurrence counts. */
  predicate MatchesAllowed(s: string) {
    Includes(s, "jpeg") || Includes(s, "jpg") || Includes(s, "png") || Includes(s, "pdf")
  }

  /** fileFilter: both the lower-cased extension and the mimetype must match. */
  predicate FileFilter(f: UploadedFile) {
    MatchesAllowed(Lower(Extname(f.originalName))) && MatchesAllowed(f.mimetype)
  }

  /** `Date.now() + '-' + Math.round(Math.random() * 1E9)`, for the clock `time` and the
      rounded draw `draw`. */
  function UniqueSuffix(time: nat, draw: nat): string {
    Decimal(time) + "-" + Decimal(draw)
  }

  /** The disk storage's file name: `<user id>-<unique suffix><extension>`. */
  function StoredFilename(user: Id, uniqueSuffix: string, originalName: string): string {
    IdText(user) + "-" + (uniqueSuffix + Extname(originalName))
  }

  /** The URL stored in the record. */
  function DocumentUrl(filename: string): string {
    "/uploads/" + filename
  }

  /** The answer of uploadKycDocument when it writes nothing: the upload middleware's
      errors (filter, then size), a missing file, a missing document type, or the failure
      of the upsert, which is the one store write. */
  function Refusal(req: KycRequest, fault: Fault): Option<Reply> {
    match req.file
    case None => Some(Failure(400, "Please upload a document"))
    case Some(f) =>
      if !FileFilter(f) then Some(Failure(400, FilterError))
      else if f.size > MaxFileSize then Some(Failure(400, "File too large"))
      else if !Present(req.documentType) then Some(Failure(400, "Please provide a document_type"))
      else if Hits(fault, 1) then Some(Failure(500, ServerError))
      else None
  }

  /** uploadKycDocument, as a function of the database. `fileTime` is the clock as the
      file name is chosen and `now` the clock as the record is written. */
  function UploadKyc(s: State, user: Id, req: KycRequest, fileTime: nat, now: nat, draw: nat, fault: Fault): (State, Reply) {
    match Refusal(req, fault)
    case Some(reply) => (s, reply)
    case None =>
      var url := DocumentUrl(StoredFilename(user, UniqueSuffix(fileTime, draw), req.file.value.originalName));
      (s.(kyc := s.kyc[user := KycRow(url, req.documentType.value, Pending, now)]), Success(200))
  }

  /** uploadKycDocument: the checks, then the upsert keyed by the user's id. */
  method UploadKycDocument(db: Store, user: Id, req: KycRequest, fileTime: nat, now: nat, draw: nat,
                           fault: Fault) returns (r: Reply)
    modifies db
    ensures (db.Snapshot(), r) == UploadKyc(old(db.Snapshot()), user, req, fileTime, now, draw, fault)
  {
    if req.file.None? {
      return Failure(400, "Please upload a document");
    }
    var file := req.file.value;
    var extname := MatchesAllowed(Lower(Extname(file.originalName)));
    var mimetype := MatchesAllowed(file.mimetype);
    if !(mimetype && extname) {
      return Failure(400, FilterError);
    }
    if file.size > MaxFileSize {
      return Failure(400, "File too large");
    }
    if req.documentType.None? || req.documentType.value == "" {
      return Failure(400, "Please provide a document_type");
    }
    if fault.FailAt? && fault.write < 1 {
      return Failure(500, ServerError);
    }
    var documentUrl := DocumentUrl(StoredFilename(user, UniqueSuffix(fileTime, draw), file.originalName));
    db.kyc := db.kyc[user := KycRow(documentUrl, req.documentType.value, Pending, now)];
    r := Success(200);
  }

  /** An extension is empty or a '.' followed by no other '.' and no '/', and it ends the
      path's last segment. */
  lemma ExtnameShape(path: string)
    ensures var e := Extname(path);
            var b := Basename(path);
            e == "" || (e[0] == '.' && '.' !in e[1..] && '/' !in e && |e| <= |b| && b[|b| - |e|..] == e)
  {
    var b := Basename(path);
    BasenameSpec(path);
    LastIndexOfSpec(b, '.');
    match LastIndexOf(b, '.')
    case None =>
    case Some(d) =>
      if d != 0 && b != ".." {
        var e := b[d..];
        assert e[1..] == b[d + 1..];
        assert forall c :: c in e ==> c in b;
      }
  }

  /** The extension of "stem.ext", for a stem and an ext free of '/', an ext free of '.',
      and a non-empty stem (other than the path ".."), is ".ext". */
  lemma ExtnameOf(stem: string, ext: string)
    requires stem != [] && '/' !in stem && '/' !in ext && '.' !in ext
    requires !(stem == "." && ext == "")
    ensures Extname(stem + "." + ext) == "." + ext
  {
    var p := stem + "." + ext;
    assert '/' !in p by { assert forall c :: c in p ==> c in stem || c == '.' || c in ext; }
    assert p[|p| - 1] in p;
    LastIndexOfSpec(p, '/');
    assert Basename(p) == p;
    LastIndexOfAfter(stem, '.', ext);
    assert p[|stem|..] == "." + ext;
    if |p| == 2 {
      assert |stem| == 1 && ext == [];
      assert stem == [stem[0]] && p[0] == stem[0];
    }
  }

  /** The last `c` of "a c b", when `b` has none, is the one after `a`. */
  lemma {:induction false} LastIndexOfAfter(a: string, c: char, b: string)
    requires c !in b
    ensures LastIndexOf(a + [c] + b, c) == Some(|a|)
    decreases |b|
  {
    var s := a + [c] + b;
    if b != [] {
      assert s[|s| - 1] == b[|b| - 1] && b[|b| - 1] in b;
      assert forall x :: x in b[..|b| - 1] ==> x in b;
      LastIndexOfAfter(a, c, b[..|b| - 1]);
      assert s[..|s| - 1] == a + [c] + b[..|b| - 1];
    }
  }

  /** A name without a '.' has no extension, so the filter refuses it whatever its mimetype. */
  lemma NoExtensionRefused(f: UploadedFile)
    requires '.' !in f.originalName
    ensures !FileFilter(f)
  {
    BasenameSpec(f.originalName);
    LastIndexOfSpec(Basename(f.originalName), '.');
    assert Extname(f.originalName) == "";
  }

  /** The regular expression matches exactly when one of its words occurs in `s`. */
  lemma MatchesAllowedIff(s: string)
    ensures MatchesAllowed(s) <==> exists w :: w in AllowedWords && Occurs(s, w)
  {
    IncludesIffOccurs(s, "jpeg");
    IncludesIffOccurs(s, "jpg");
    IncludesIffOccurs(s, "png");
    IncludesIffOccurs(s, "pdf");
    if MatchesAllowed(s) {
      var w := if Includes(s, "jpeg") then "jpeg" else if Includes(s, "jpg") then "jpg"
               else if Includes(s, "png") then "png" else "pdf";
      assert w in AllowedWords && Occurs(s, w);
    }
  }

  /** The filter accepts a file exactly when one of jpeg, jpg, png and pdf occurs somewhere
      in its lower-cased extension and one occurs somewhere in its mimetype. */
  lemma FileFilterIff(f: UploadedFile)
    ensures FileFilter(f) <==>
              (exists w :: w in AllowedWords && Occurs(Lower(Extname(f.originalName)), w))
              && (exists w :: w in AllowedWords && Occurs(f.mimetype, w))
  {
    MatchesAllowedIff(Lower(Extname(f.originalName)));
    MatchesAllowedIff(f.mimetype);
  }

  /** A name built as "<id>-<rest>" starts with the id's text and a '-', and its first
      '-'-separated field is that text. */
  lemma OwnerField(user: Id, rest: string)
    ensures StartsWith(IdText(user) + "-" + rest, IdText(user) + "-")
    ensures Split(IdText(user) + "-" + rest, '-')[0] == IdText(user)
  {
    var id := IdText(user);
    assert (id + "-" + rest)[..|id| + 1] == id + "-";
    assert '-' !in id by {
      assert forall i :: 0 <= i < |id| ==> IsDigit(id[i]);
    }
    SplitField(id, '-', rest);
  }

  /** The stored name starts with the owner's id and a '-', so its first '-'-separated
      field is the id's decimal text. */
  lemma StoredFilenameOwner(user: Id, uniqueSuffix: string, originalName: string)
    ensures var name := StoredFilename(user, uniqueSuffix, originalName);
            StartsWith(name, IdText(user) + "-") && Split(name, '-')[0] == IdText(user)
  {
    OwnerField(user, uniqueSuffix + Extname(originalName));
  }

  /** The stored name ends with the original name's extension, after the unique suffix. */
  lemma StoredFilenameExtension(user: Id, uniqueSuffix: string, originalName: string)
    ensures var name := StoredFilename(user, uniqueSuffix, originalName);
            var ext := Extname(originalName);
            |ext| < |name| && name[|name| - |ext|..] == ext
            && name[..|name| - |ext|] == IdText(user) + "-" + uniqueSuffix
  {
    Split3(IdText(user) + "-", uniqueSuffix, Extname(originalName));
  }

  lemma Split3(a: string, b: string, c: string)
    requires a != []
    ensures var s := a + (b + c);
            |c| < |s| && s[|s| - |c|..] == c && s[..|s| - |c|] == a + b
  {
    assert a + (b + c) == (a + b) + c;
  }

  /** Every refusal leaves the database unchanged; the upload succeeds exactly when a file
      is present, passes the filter, is at most 5 MiB, a document type is given and the
      store write does not fail. */
  lemma UploadKycOutcome(s: State, user: Id, req: KycRequest, fileTime: nat, now: nat, draw: nat, fault: Fault)
    ensures var (s', r) := UploadKyc(s, user, req, fileTime, now, draw, fault);
            && (r.Failure? ==> s' == s)
            && (r.Success? <==> req.file.Some? && FileFilter(req.file.value) && req.file.value.size <= MaxFileSize
                                && Present(req.documentType) && !Hits(fault, 1))
            && ((req.file.Some? && FileFilter(req.file.value) && req.file.value.size <= MaxFileSize
                 && !Present(req.documentType)) ==> r == Failure(400, "Please provide a document_type"))
  {
  }

  /** A successful upload leaves exactly one record for the user, PENDING, with the new URL
      (built from the file name's clock read), the new type and the submission time (the
      later clock read). It creates the record or overwrites the earlier one. The other
      users' records and the rest of the database are unchanged. */
  lemma UploadKycEffect(s: State, user: Id, req: KycRequest, fileTime: nat, now: nat, draw: nat, fault: Fault)
    requires UploadKyc(s, user, req, fileTime, now, draw, fault).1.Success?
    ensures var s' := UploadKyc(s, user, req, fileTime, now, draw, fault).0;
            var f := req.file.value;
            && s'.kyc.Keys == s.kyc.Keys + {user}
            && s'.kyc[user] == KycRow("/uploads/" + StoredFilename(user, UniqueSuffix(fileTime, draw), f.originalName),
                                      req.documentType.value, Pending, now)
            && (forall u :: u in s.kyc && u != user ==> s'.kyc[u] == s.kyc[u])
            && s' == s.(kyc := s'.kyc)
  {
  }

  /** An upload keeps the schema's constraints: it touches only the KYC records. */
  lemma UploadKycPreservesValid(s: State, user: Id, req: KycRequest, fileTime: nat, now: nat, draw: nat, fault: Fault)
    requires Valid(s)
    ensures Valid(UploadKyc(s, user, req, fileTime, now, draw, fault).0)
  {
  }
}
