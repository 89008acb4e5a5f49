/**
 * The image-upload helpers of the backend's Cloudinary middleware: the
 * start-up check for the three required environment variables, the naming
 * rule for uploaded images, the pre-upload file validation and the mapping
 * of upload errors to messages shown to users. The Cloudinary SDK itself
 * (configuration, ping, storage engine, delete, URL builder) is not modelled.
 */
module CloudinaryConfig {
  import opened Wrappers
  import opened Strings

  // ---------------------------------------------------------------------------
  // Required environment variables
  // ---------------------------------------------------------------------------

  /** The variables the module refuses to start without, in the order it checks them */
  const RequiredEnvVars: seq<string> := ["CLOUD_NAME", "CLOUD_API_KEY", "CLOUD_API_SECRET"]

  const MissingEnvPrefix := "Missing required environment variables: "

  /** `process.env[name]` is truthy: the variable is present and not the empty string */
  predicate IsSet(env: map<string, string>, name: string) {
    name in env && env[name] != ""
  }

  /** `names.filter(name => !process.env[name])`: the names not set, in their original order */
  function MissingEnvVars(names: seq<string>, env: map<string, string>): (missing: seq<string>)
    ensures |missing| <= |names|
    decreases |names|
  {
    if names == [] then []
    else if IsSet(env, names[0]) then MissingEnvVars(names[1..], env)
    else [names[0]] + MissingEnvVars(names[1..], env)
  }

  /** A name is reported missing exactly when it is listed and not set. */
  lemma {:induction false} MissingEnvVarsMembers(names: seq<string>, env: map<string, string>)
    ensures forall x :: x in MissingEnvVars(names, env) <==> x in names && !IsSet(env, x)
    decreases |names|
  {
    if names != [] {
      MissingEnvVarsMembers(names[1..], env);
      assert names == [names[0]] + names[1..];
    }
  }

  /** Filtering distributes over concatenation, so the missing names keep their relative order. */
  lemma {:induction false} MissingEnvVarsAppend(a: seq<string>, b: seq<string>, env: map<string, string>)
    ensures MissingEnvVars(a + b, env) == MissingEnvVars(a, env) + MissingEnvVars(b, env)
    decreases |a|
  {
    if a == [] {
      assert a + b == b;
    } else {
      MissingEnvVarsAppend(a[1..], b, env);
      assert (a + b)[0] == a[0];
      assert (a + b)[1..] == a[1..] + b;
    }
  }

  /**
   * The module-load check: throws an error listing the missing names,
   * separated by ", ", when at least one is missing.
   */
  function CheckEnv(env: map<string, string>): (r: Result<(), string>)
    ensures r.Failure? ==> StartsWith(r.error, MissingEnvPrefix)
    ensures r.Failure? ==> r.error == MissingEnvPrefix + Join(MissingEnvVars(RequiredEnvVars, env), ", ")
  {
    var missing := MissingEnvVars(RequiredEnvVars, env);
    if |missing| > 0 then Failure(MissingEnvPrefix + Join(missing, ", ")) else Success(())
  }

  /** Every joined piece occurs in the joined text. */
  lemma {:induction false} JoinIncludesPiece(parts: seq<string>, sep: string, k: nat)
    requires k < |parts|
    ensures Includes(Join(parts, sep), parts[k])
    decreases |parts|
  {
    var j := Join(parts, sep);
    if |parts| == 1 {
      IncludesAt(j, parts[k], 0);
    } else if k == 0 {
      assert j[..|parts[0]|] == parts[0];
      IncludesAt(j, parts[0], 0);
    } else {
      JoinIncludesPiece(parts[1..], sep, k - 1);
      var i := IncludesWitness(Join(parts[1..], sep), parts[k]);
      var off := |parts[0]| + |sep|;
      assert j[off + i..off + i + |parts[k]|] == Join(parts[1..], sep)[i..i + |parts[k]|];
      IncludesAt(j, parts[k], off + i);
    }
  }

  /** The check throws exactly when some required variable is missing or empty. */
  lemma CheckEnvFailsIffMissing(env: map<string, string>)
    ensures CheckEnv(env).Failure? <==> exists n :: n in RequiredEnvVars && !IsSet(env, n)
  {
    var missing := MissingEnvVars(RequiredEnvVars, env);
    MissingEnvVarsMembers(RequiredEnvVars, env);
    if |missing| > 0 {
      assert missing[0] in missing;
    }
  }

  /** The error message starts with the fixed prefix and names every missing or empty variable. */
  lemma CheckEnvNamesMissing(env: map<string, string>, name: string)
    requires name in RequiredEnvVars && !IsSet(env, name)
    ensures CheckEnv(env).Failure?
    ensures StartsWith(CheckEnv(env).error, MissingEnvPrefix)
    ensures Includes(CheckEnv(env).error, name)
  {
    var missing := MissingEnvVars(RequiredEnvVars, env);
    MissingEnvVarsMembers(RequiredEnvVars, env);
    assert name in missing;
    var k :| 0 <= k < |missing| && missing[k] == name;
    JoinIncludesPiece(missing, ", ", k);
    IncludesAfterPrefix(MissingEnvPrefix, Join(missing, ", "), name);
  }

  /** Text found in a string is still found after something is put in front of it. */
  lemma IncludesAfterPrefix(prefix: string, s: string, needle: string)
    requires Includes(s, needle)
    ensures Includes(prefix + s, needle)
  {
    var i := IncludesWitness(s, needle);
    assert (prefix + s)[|prefix| + i..|prefix| + i + |needle|] == s[i..i + |needle|];
    IncludesAt(prefix + s, needle, |prefix| + i);
  }

  /** With nothing set, all three names are reported, in the order they are listed. */
  lemma CheckEnvAllMissing(env: map<string, string>)
    requires env == map[]
    ensures CheckEnv(env) == Failure(MissingEnvPrefix + Join(RequiredEnvVars, ", "))
  {
    assert MissingEnvVars(RequiredEnvVars, env) == RequiredEnvVars;
  }

  /**
   * When exactly one required variable is missing or empty, the message
   * names that variable and nothing else.
   */
  lemma CheckEnvOnlyMissingNamed(env: map<string, string>, name: string)
    requires name in RequiredEnvVars && !IsSet(env, name)
    requires forall n :: n in RequiredEnvVars && n != name ==> IsSet(env, n)
    ensures CheckEnv(env) == Failure(MissingEnvPrefix + name)
  {
    assert RequiredEnvVars == ["CLOUD_NAME", "CLOUD_API_KEY", "CLOUD_API_SECRET"];
    assert MissingEnvVars(RequiredEnvVars, env) == [name];
  }

  /** A variable set to the empty string counts as missing (one concrete environment). */
  lemma CheckEnvEmptyIsMissing(env: map<string, string>)
    requires env == map["CLOUD_NAME" := "demo", "CLOUD_API_KEY" := "123", "CLOUD_API_SECRET" := ""]
    ensures CheckEnv(env) == Failure(MissingEnvPrefix + "CLOUD_API_SECRET")
  {
    assert MissingEnvVars(RequiredEnvVars, env) == ["CLOUD_API_SECRET"];
  }

  // ---------------------------------------------------------------------------
  // public_id of an uploaded image
  // ---------------------------------------------------------------------------

  const PublicIdPrefix := "event_"

  /**
   * The `public_id` naming rule: "event_", the upload time in milliseconds
   * (`Date.now()`, here a parameter), "_", and the original file name up to
   * its first '.'.
   */
  function PublicId(timestamp: nat, originalname: string): (id: string)
    ensures StartsWith(id, PublicIdPrefix)
    ensures EndsWith(id, FirstSegment(originalname, '.'))
  {
    PublicIdPrefix + NatToDecimal(timestamp) + "_" + FirstSegment(originalname, '.')
  }

  /** Reads a public_id back into its timestamp and base name, if it has the shape `PublicId` builds. */
  function ParsePublicId(id: string): Option<(nat, string)> {
    if !StartsWith(id, PublicIdPrefix) then None
    else
      var parts := Split(id[|PublicIdPrefix|..], '_');
      if |parts| < 2 || parts[0] == "" || !AllDigits(parts[0]) then None
      else Some((DecimalToNat(parts[0]), Join(parts[1..], "_")))
  }

  /**
   * A public_id determines the upload time and the base name it was built
   * from, even when the base name itself contains '_'.
   */
  lemma PublicIdRoundTrip(timestamp: nat, originalname: string)
    ensures ParsePublicId(PublicId(timestamp, originalname)) == Some((timestamp, FirstSegment(originalname, '.')))
  {
    var digits := NatToDecimal(timestamp);
    var base := FirstSegment(originalname, '.');
    var id := PublicId(timestamp, originalname);
    assert id[|PublicIdPrefix|..] == digits + ['_'] + base;
    forall k | 0 <= k < |digits| ensures digits[k] != '_' {
      assert IsDigit(digits[k]);
    }
    SplitAfterHead(digits, '_', base);
    var parts := Split(id[|PublicIdPrefix|..], '_');
    assert parts == [digits] + Split(base, '_');
    assert parts[1..] == Split(base, '_');
    SplitJoin(base, '_');
    DecimalRoundTrip(timestamp);
  }

  /**
   * The base name is the original name up to its first '.', holds no '.',
   * and is the whole name when the name has no '.'.
   */
  lemma PublicIdBaseName(timestamp: nat, originalname: string)
    ensures var base := FirstSegment(originalname, '.');
      && EndsWith(PublicId(timestamp, originalname), "_" + base)
      && '.' !in base
      && StartsWith(originalname, base)
      && ('.' !in originalname ==> base == originalname)
  {
    FirstSegmentSpec(originalname, '.');
    var base := FirstSegment(originalname, '.');
    var id := PublicId(timestamp, originalname);
    assert id == (PublicIdPrefix + NatToDecimal(timestamp)) + ("_" + base);
    assert id[|id| - |"_" + base|..] == "_" + base;
  }

  // ---------------------------------------------------------------------------
  // validateImageFile
  // ---------------------------------------------------------------------------

  /** The multer file record fields the validation reads */
  datatype UploadFile = UploadFile(mimetype: string, originalname: string, size: nat)

  const AllowedTypes: seq<string> :=
    ["image/jpeg", "image/jpg", "image/png", "image/gif", "image/webp", "image/bmp", "image/tiff"]

  /** 5 MiB */
  const MaxSize: nat := 5 * 1024 * 1024

  const TooLargeMessage := "File too large. Please choose an image smaller than 5MB."

  const UnsupportedSuffix := " format is not supported. Please use JPEG, PNG, GIF, WEBP, BMP, or TIFF images."

  /** The format error names the upper-cased text after the last '.' of the file name. */
  function FormatErrorMessage(originalname: string): (message: string)
    ensures EndsWith(message, UnsupportedSuffix)
  {
    ToUpperCase(LastSegment(originalname, '.')) + UnsupportedSuffix
  }

  /**
   * `validateImageFile`: the MIME type is checked first, then the size;
   * the first failing check throws, and a file passing both yields `true`.
   */
  function ValidateImageFile(file: UploadFile): (r: Result<bool, string>)
    ensures r.Success? <==> file.mimetype in AllowedTypes && file.size <= MaxSize
    ensures r.Success? ==> r.value
    ensures file.mimetype !in AllowedTypes ==> r == Failure(FormatErrorMessage(file.originalname))
    ensures file.mimetype in AllowedTypes && file.size > MaxSize ==> r == Failure(TooLargeMessage)
  {
    if file.mimetype !in AllowedTypes then Failure(FormatErrorMessage(file.originalname))
    else if file.size > MaxSize then Failure(TooLargeMessage)
    else Success(true)
  }

  /** Any MIME type outside the seven allowed ones is rejected with the format error, whatever the size. */
  lemma RejectsUnknownType(file: UploadFile)
    requires file.mimetype !in AllowedTypes
    ensures ValidateImageFile(file) == Failure(FormatErrorMessage(file.originalname))
    ensures ValidateImageFile(file) != Failure(TooLargeMessage)
  {
    assert |FormatErrorMessage(file.originalname)| > |TooLargeMessage|;
  }

  /** The size bound is inclusive: 5242880 bytes pass, 5242881 bytes do not. */
  lemma SizeBoundInclusive(mimetype: string, originalname: string)
    requires mimetype in AllowedTypes
    ensures ValidateImageFile(UploadFile(mimetype, originalname, 5242880)) == Success(true)
    ensures ValidateImageFile(UploadFile(mimetype, originalname, 5242881)) == Failure(TooLargeMessage)
  {
  }

  /**
   * The format error starts with the file's extension in upper case: the
   * separator-free text after its last '.', or the whole name if it has none.
   */
  lemma FormatErrorNamesExtension(originalname: string)
    ensures var ext := LastSegment(originalname, '.');
      && StartsWith(FormatErrorMessage(originalname), ToUpperCase(ext))
      && EndsWith(originalname, ext)
      && '.' !in ext
      && ('.' !in originalname ==> ext == originalname)
  {
    LastSegmentSpec(originalname, '.');
  }

  /**
   * For a name of the form stem.ext with a dot-free ext, the format error
   * names EXT, whatever dots the stem holds ("report.v2.pdf" gives "PDF ...").
   */
  lemma FormatErrorOfExtension(stem: string, ext: string)
    requires '.' !in ext
    ensures FormatErrorMessage(stem + "." + ext) == ToUpperCase(ext) + UnsupportedSuffix
  {
    LastSegmentAfterSeparator(stem, '.', ext);
    LastSegmentSpec(ext, '.');
  }

  // ---------------------------------------------------------------------------
  // handleCloudinaryError
  // ---------------------------------------------------------------------------

  /** The substrings looked for, in priority order */
  const ErrorNeedles: seq<string> :=
    ["Invalid image file", "File size too large", "Unsupported format", "timeout", "network"]

  const InvalidFileReply := "Invalid image file. Please upload a valid image format."
  const TooLargeReply := "File too large. Please choose a smaller image."
  const UnsupportedReply := "Unsupported image format. Please use JPEG, PNG, GIF, WEBP, BMP, or TIFF."
  const TimeoutReply := "Upload timed out. Please try again with a smaller image."
  const NetworkReply := "Network error during upload. Please check your connection and try again."
  const DefaultUploadReply := "Image upload failed. Please try again."

  /** The reply for each needle, in the same order */
  const ErrorReplies: seq<string> := [InvalidFileReply, TooLargeReply, UnsupportedReply, TimeoutReply, NetworkReply]

  /** `handleCloudinaryError`: the first case-sensitive substring match decides the message. */
  function HandleCloudinaryError(message: string): (reply: string)
    ensures reply in ErrorReplies + [DefaultUploadReply]
  {
    if Includes(message, "Invalid image file") then InvalidFileReply
    else if Includes(message, "File size too large") then TooLargeReply
    else if Includes(message, "Unsupported format") then UnsupportedReply
    else if Includes(message, "timeout") then TimeoutReply
    else if Includes(message, "network") then NetworkReply
    else DefaultUploadReply
  }

  /**
   * First match wins: the reply for needle k is chosen exactly when the
   * message contains needle k and none of the needles before it.
   */
  lemma HandleCloudinaryErrorFirstMatch(message: string, k: nat)
    requires k < |ErrorNeedles|
    ensures HandleCloudinaryError(message) == ErrorReplies[k] <==>
      Includes(message, ErrorNeedles[k]) && forall j :: 0 <= j < k ==> !Includes(message, ErrorNeedles[j])
  {
    RepliesDistinct();
    assert ErrorNeedles[0] == "Invalid image file" && ErrorNeedles[1] == "File size too large";
    assert ErrorNeedles[2] == "Unsupported format" && ErrorNeedles[3] == "timeout" && ErrorNeedles[4] == "network";
  }

  /** The generic reply is given exactly when no needle occurs in the message. */
  lemma HandleCloudinaryErrorDefault(message: string)
    ensures HandleCloudinaryError(message) == DefaultUploadReply <==>
      forall j :: 0 <= j < |ErrorNeedles| ==> !Includes(message, ErrorNeedles[j])
  {
    RepliesDistinct();
    assert ErrorNeedles[0] == "Invalid image file" && ErrorNeedles[1] == "File size too large";
    assert ErrorNeedles[2] == "Unsupported format" && ErrorNeedles[3] == "timeout" && ErrorNeedles[4] == "network";
  }

  /** The six replies are pairwise different, so a reply tells which case was taken. */
  lemma RepliesDistinct()
    ensures forall j, k :: 0 <= j < k < |ErrorReplies| ==> ErrorReplies[j] != ErrorReplies[k]
    ensures DefaultUploadReply !in ErrorReplies
  {
    assert |InvalidFileReply| == 55 && |TooLargeReply| == 46 && |TimeoutReply| == 56;
    assert |UnsupportedReply| == 72 && |NetworkReply| == 72 && |DefaultUploadReply| == 38;
    assert UnsupportedReply[70] == 'F' && NetworkReply[70] == 'n';
  }

  /** Matching is case-sensitive: "Timeout" is not "timeout", so this message gets the generic reply. */
  lemma TimeoutIsCaseSensitive(message: string)
    requires message == "Request Timeout"
    ensures HandleCloudinaryError(message) == DefaultUploadReply
  {
    NotIncludedByLength(message, "Invalid image file");
    NotIncludedByLength(message, "File size too large");
    NotIncludedByLength(message, "Unsupported format");
    NotIncludedByChar(message, "network", 'n');
    forall i: nat ensures !OccursAt(message, "timeout", i) {
      if i + 7 <= |message| {
        assert message[i..i + 7][0] == message[i] && message[i..i + 7][1] == message[i + 1];
      }
    }
    IncludesIff(message, "timeout");
  }

  /** Matching is ordered: a message naming both a timeout and the network gets the timeout reply. */
  lemma TimeoutBeforeNetwork(message: string)
    requires message == "network timeout"
    ensures HandleCloudinaryError(message) == TimeoutReply
  {
    NotIncludedByLength(message, "Invalid image file");
    NotIncludedByLength(message, "File size too large");
    NotIncludedByLength(message, "Unsupported format");
    assert message[8..15] == "timeout";
    IncludesAt(message, "timeout", 8);
  }

  /** A needle longer than the message cannot occur in it. */
  lemma NotIncludedByLength(message: string, needle: string)
    requires |needle| > |message|
    ensures !Includes(message, needle)
  {
    IncludesIff(message, needle);
  }

  /** A needle holding a character absent from the message cannot occur in it. */
  lemma NotIncludedByChar(message: string, needle: string, c: char)
    requires c in needle && c !in message
    ensures !Includes(message, needle)
  {
    var k :| 0 <= k < |needle| && needle[k] == c;
    forall i: nat ensures !OccursAt(message, needle, i) {
      if i + |needle| <= |message| {
        assert message[i..i + |needle|][k] == message[i + k];
      }
    }
    IncludesIff(message, needle);
  }
}
