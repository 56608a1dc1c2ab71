// Exemptions of the redactor: filename extensions and path separators.
module FileNames {
  import opened Ascii

  // Extensions treated as filename endings, by kind.
  const PACKAGES := ["exe", "msi", "msu", "dll", "cab", "class", "jar", "so", "dylib", "deb", "rpm", "apk", "app"]
  const ARCHIVES := ["zip", "tar", "gz", "tgz", "bz2", "7z", "rar", "xz"]
  const DOCUMENTS := ["pdf", "docx", "doc", "xlsx", "xls", "pptx", "ppt", "txt", "rtf", "odt", "ods"]
  const MEDIA := ["png", "jpg", "jpeg", "gif", "bmp", "svg", "ico", "webp", "mp4", "mov", "avi", "mkv", "mp3", "wav"]
  const SOURCES := ["py", "rs", "js", "ts", "jsx", "tsx", "java", "kt", "go", "c", "cpp", "h"]
  const SCRIPTS := ["hpp", "cs", "rb", "php", "swift", "scala", "sh", "bash", "zsh", "ps1", "bat", "cmd"]
  const DATA := ["json", "yaml", "yml", "toml", "xml", "ini", "conf", "cfg", "properties", "env", "csv", "tsv"]
  const WEB := ["html", "htm", "css", "scss", "less"]
  const LOGS := ["log", "md", "mdx", "sql", "db", "sqlite", "crt", "cer", "pem", "key", "lock"]
  const OFFICE := ["opal", "opax", "chm"]

  const EXTENSIONS: seq<string> :=
    PACKAGES + ARCHIVES + DOCUMENTS + MEDIA + SOURCES + SCRIPTS + DATA + WEB + LOGS + OFFICE

  predicate Known(ext: string) { Lower(ext) in EXTENSIONS }

  /** `s` begins with a dot and a known extension; at most 8 characters after the dot are looked at. */
  predicate HasExtension(s: string) {
    s != [] && s[0] == '.' && Known(s[1..][..ExtensionLength(s[1..])])
  }

  /** Length of the leading alphanumeric run, looking at 8 characters at most. */
  function ExtensionLength(s: string): (n: nat)
    ensures n <= |s| && n <= 8
  {
    var n := RunEnd(s, 0, IsAlnum);
    if n < 8 then n else 8
  }

  /** `is_followed_by_file_extension`. */
  method IsFollowedByExtension(bytes: string, end: nat) returns (b: bool)
    ensures b == (end < |bytes| && HasExtension(bytes[end..]))
  {
    hide Known;
    if end >= |bytes| || bytes[end] != '.' {
      return false;
    }
    var start := end + 1;
    var stop := start;
    while stop < |bytes| && stop - start < 8 && IsAlnum(bytes[stop])
      invariant start <= stop <= |bytes| && stop - start <= 8
      invariant forall i :: start <= i < stop ==> IsAlnum(bytes[i])
    {
      stop := stop + 1;
    }
    LengthIs(bytes, start, stop);
    if stop == start {
      EmptyUnknown();
      return false;
    }
    return Known(bytes[start..stop]);
  }

  lemma LengthIs(bytes: string, start: nat, stop: nat)
    requires 0 < start <= stop <= |bytes| && stop - start <= 8
    requires forall i :: start <= i < stop ==> IsAlnum(bytes[i])
    requires stop < |bytes| && stop - start < 8 ==> !IsAlnum(bytes[stop])
    ensures stop - start == ExtensionLength(bytes[start - 1..][1..])
    ensures bytes[start - 1..][1..][..stop - start] == bytes[start..stop]
  {
    var s := bytes[start - 1..][1..];
    assert s == bytes[start..];
    assert forall i :: 0 <= i < stop - start ==> s[i] == bytes[start + i];
  }

  lemma EmptyUnknown()
    ensures !Known("")
  {
    if Known("") { KnownShaped(""); }
  }

  /** `is_preceded_by_path_separator`, of the byte before a token. */
  predicate IsSeparator(c: char) { c == '/' || c == '\\' }

  predicate AfterSeparator(bytes: string, start: nat)
    requires start <= |bytes|
  {
    start > 0 && IsSeparator(bytes[start - 1])
  }

  predicate IsNameChar(c: char) { IsAlnum(c) || c == '_' || c == '-' }

  /** Past the name characters `s` begins with, there is a known extension. */
  predicate LeadsToExtension(s: string) {
    HasExtension(s[RunEnd(s, 0, IsNameChar)..])
  }

  /** `is_inside_filename_identifier`. */
  method IsInsideFilename(bytes: string, end: nat) returns (b: bool)
    requires end <= |bytes|
    ensures b == LeadsToExtension(bytes[end..])
  {
    hide HasExtension, LeadsToExtension;
    var k := SkipWhile(bytes, end, IsNameChar);
    LeadsIs(bytes, end);
    b := IsFollowedByExtension(bytes, k);
  }

  lemma LeadsIs(bytes: string, end: nat)
    requires end <= |bytes|
    ensures var k := RunEnd(bytes, end, IsNameChar);
      LeadsToExtension(bytes[end..]) == (k < |bytes| && HasExtension(bytes[k..]))
  {
    hide HasExtension, IsNameChar, RunEnd;
    var k := RunEnd(bytes, end, IsNameChar);
    RunEndOfSuffix(bytes, end, IsNameChar);
    assert bytes[end..][k - end..] == bytes[k..];
    NothingExtends();
  }

  lemma NothingExtends()
    ensures !HasExtension("")
  {}

  lemma RunEndOfSuffix(s: string, from: nat, p: char -> bool)
    requires from <= |s|
    ensures RunEnd(s, from, p) - from == RunEnd(s[from..], 0, p)
  {
    RunEndUnique(s[from..], 0, p, RunEnd(s, from, p) - from);
  }

  /** `is_after_identifier_and_before_extension`. */
  method IsAfterIdentifier(bytes: string, start: nat, end: nat) returns (b: bool)
    requires start <= end <= |bytes|
    ensures b == (start > 0 && (IsAlpha(bytes[start - 1]) || bytes[start - 1] == '_' || bytes[start - 1] == '-')
                  && LeadsToExtension(bytes[end..]))
  {
    if start == 0 {
      return false;
    }
    var prev := bytes[start - 1];
    if !(IsAlpha(prev) || prev == '_' || prev == '-') {
      return false;
    }
    b := IsInsideFilename(bytes, end);
  }

  // ---- Facts about the extension list ----

  predicate NoAdjacentDigits(s: string) {
    forall i :: 0 <= i && i + 1 < |s| ==> !(IsDigit(s[i]) && IsDigit(s[i + 1]))
  }

  /** No listed extension has two digits in a row, or none or exactly 8 characters. */
  predicate Shaped(ext: string) {
    NoAdjacentDigits(ext) && |ext| != 8 && ext != ""
  }

  /** Listed extensions are compared in lower case. */
  predicate IsWord(ext: string) {
    forall i :: 0 <= i < |ext| ==> IsLower(ext[i]) || IsDigit(ext[i])
  }

  lemma PackagesShaped()
    ensures forall e :: e in PACKAGES ==> Shaped(e)
  {}

  lemma ArchivesShaped()
    ensures forall e :: e in ARCHIVES ==> Shaped(e)
  {}

  lemma DocumentsShaped()
    ensures forall e :: e in DOCUMENTS ==> Shaped(e)
  {}

  lemma MediaShaped()
    ensures forall e :: e in MEDIA ==> Shaped(e)
  {}

  lemma SourcesShaped()
    ensures forall e :: e in SOURCES ==> Shaped(e)
  {}

  lemma ScriptsShaped()
    ensures forall e :: e in SCRIPTS ==> Shaped(e)
  {}

  lemma DataShaped()
    ensures forall e :: e in DATA ==> Shaped(e)
  {}

  lemma WebShaped()
    ensures forall e :: e in WEB ==> Shaped(e)
  {}

  lemma LogsShaped()
    ensures forall e :: e in LOGS ==> Shaped(e)
  {}

  lemma OfficeShaped()
    ensures forall e :: e in OFFICE ==> Shaped(e)
  {}

  lemma ListedShaped(e: string)
    requires e in EXTENSIONS
    ensures Shaped(e)
  {
    hide PACKAGES, ARCHIVES, DOCUMENTS, MEDIA, SOURCES, SCRIPTS, DATA, WEB, LOGS, OFFICE, Shaped;
    PackagesShaped();
    ArchivesShaped();
    DocumentsShaped();
    MediaShaped();
    SourcesShaped();
    ScriptsShaped();
    DataShaped();
    WebShaped();
    LogsShaped();
    OfficeShaped();
  }

  lemma KnownShaped(ext: string)
    requires Known(ext)
    ensures Shaped(ext)
  {
    hide EXTENSIONS;
    ListedShaped(Lower(ext));
    forall j | 0 <= j && j + 1 < |ext|
      ensures !(IsDigit(ext[j]) && IsDigit(ext[j + 1]))
    {
      assert !(IsDigit(Lower(ext)[j]) && IsDigit(Lower(ext)[j + 1]));
    }
  }

  /** `.properties` is listed but never recognised: only 8 characters after the dot are looked at. */
  lemma PropertiesNeverMatches(rest: string)
    ensures "properties" in EXTENSIONS && !HasExtension(".properties" + rest)
  {
    hide EXTENSIONS, Known;
    var s := ".properties" + rest;
    assert s[1..][..8] == "properti";
    assert forall i :: 0 <= i < 8 ==> IsAlnum(s[1..][i]);
    if Known("properti") { KnownShaped("properti"); }
    PropertiesListed();
  }

  lemma PropertiesListed()
    ensures "properties" in EXTENSIONS
  {
    assert "properties" in DATA;
  }

  lemma PackagesAreWords()
    ensures forall e :: e in PACKAGES ==> IsWord(e)
  {}

  lemma ArchivesAreWords()
    ensures forall e :: e in ARCHIVES ==> IsWord(e)
  {}

  lemma DocumentsAreWords()
    ensures forall e :: e in DOCUMENTS ==> IsWord(e)
  {}

  lemma MediaAreWords()
    ensures forall e :: e in MEDIA ==> IsWord(e)
  {}

  lemma SourcesAreWords()
    ensures forall e :: e in SOURCES ==> IsWord(e)
  {}

  lemma ScriptsAreWords()
    ensures forall e :: e in SCRIPTS ==> IsWord(e)
  {}

  lemma DataAreWords()
    ensures forall e :: e in DATA ==> IsWord(e)
  {}

  lemma WebAreWords()
    ensures forall e :: e in WEB ==> IsWord(e)
  {}

  lemma LogsAreWords()
    ensures forall e :: e in LOGS ==> IsWord(e)
  {}

  lemma OfficeAreWords()
    ensures forall e :: e in OFFICE ==> IsWord(e)
  {}

  lemma ListedIsWord(e: string)
    requires e in EXTENSIONS
    ensures IsWord(e)
  {
    hide PACKAGES, ARCHIVES, DOCUMENTS, MEDIA, SOURCES, SCRIPTS, DATA, WEB, LOGS, OFFICE, IsWord;
    PackagesAreWords();
    ArchivesAreWords();
    DocumentsAreWords();
    MediaAreWords();
    SourcesAreWords();
    ScriptsAreWords();
    DataAreWords();
    WebAreWords();
    LogsAreWords();
    OfficeAreWords();
  }

  /** A listed extension, alone or followed by something else, is recognised exactly when it has at most 8 characters. */
  lemma RecognisedIff(e: string, rest: string)
    requires e in EXTENSIONS && (rest == "" || !IsAlnum(rest[0]))
    ensures HasExtension("." + e + rest) <==> |e| <= 8
  {
    hide EXTENSIONS, Known;
    ListedIsWord(e);
    var s := e + rest;
    assert ("." + e + rest)[1..] == s;
    RunEndUnique(s, 0, IsAlnum, |e|);
    if |e| <= 8 {
      assert s[..|e|] == e;
      ListedIsKnown(e);
    } else {
      CutIsUnknown(s[..8]);
    }
  }

  lemma ListedIsKnown(e: string)
    requires e in EXTENSIONS && IsWord(e)
    ensures Known(e)
  {
    hide EXTENSIONS;
    assert Lower(e) == e;
  }

  lemma CutIsUnknown(s: string)
    requires |s| == 8
    ensures !Known(s)
  {
    hide Known;
    if Known(s) { KnownShaped(s); }
  }
}
