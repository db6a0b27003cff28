/**
 * Unify's string extension methods: file-name and permalink clean-up, line-break and
 * quotation-mark removal, word-boundary truncation and character counting. The extension
 * receiver is a non-null string except where the method tests for null itself.
 */
module StringExtensions {
  import opened Wrappers
  import opened Text

  /** The operating system, where the result depends on it. */
  datatype Platform = Windows | Unix

  /** Environment.NewLine. */
  function NewLine(p: Platform): string {
    if p == Windows then "\r\n" else "\n"
  }

  /** Path.GetInvalidFileNameChars(): NUL and '/' everywhere; on Windows also the control
      characters and " < > | : * ? \ . */
  predicate InvalidFileNameChar(p: Platform, c: char) {
    || c == '\0'
    || c == '/'
    || (p == Windows && (c < ' ' || c in "\"<>|:*?\\"))
  }

  // ---------------------------------------------------------------- ToSafeFilename

  /** ReplaceSpaceCharacters: Regex.Replace(str, @"\s+", replacement). */
  function ReplaceSpaceCharacters(str: string, replacement: string): string {
    ReplaceRuns(str, IsWhiteSpace, replacement)
  }

  /**
   * ToSafeFilename as written: "" for null or white space; otherwise the white-space runs become
   * "_" (ReplaceSpaceCharacters is called with its own default, not with `replacement`), and the
   * invalid-character replacement is computed and thrown away.
   */
  function ToSafeFilename(str: Option<string>, replacement: string): string {
    if IsNullOrWhiteSpace(str) then ""
    else if Trim(str.value) != [] then ReplaceSpaceCharacters(str.value, "_")
    else str.value
  }

  /** As written, the result has no white space and is empty only for null or white-space input,
      but the replacement string is never used. */
  lemma SafeFilenameAsWritten(str: Option<string>, replacement: string, other: string)
    ensures NoWhiteSpace(ToSafeFilename(str, replacement))
    ensures ToSafeFilename(str, replacement) == [] <==> IsNullOrWhiteSpace(str)
    ensures ToSafeFilename(str, replacement) == ToSafeFilename(str, other)
  {
    if !IsNullOrWhiteSpace(str) {
      var s := str.value;
      TrimEmpty(s);
      ReplaceRunsKeeps(s, IsWhiteSpace, "_");
      var r := ReplaceSpaceCharacters(s, "_");
      var i :| 0 <= i < |s| && !IsWhiteSpace(s[i]);
      ReplaceRunsKeepsOther(s, i);
    }
  }

  /** A string holding a character outside the runs is not replaced by an empty string. */
  lemma {:induction false} ReplaceRunsKeepsOther(s: string, i: nat)
    requires i < |s| && !IsWhiteSpace(s[i])
    ensures ReplaceSpaceCharacters(s, "_") != []
  {
    if IsWhiteSpace(s[0]) {
      assert ReplaceSpaceCharacters(s, "_")[0] == '_';
    }
  }

  /** As written, an invalid file-name character goes through: "a/b" stays "a/b" on every platform. */
  lemma SafeFilenameKeepsInvalid(p: Platform)
    ensures ToSafeFilename(Some("a/b"), "-") == "a/b"
    ensures InvalidFileNameChar(p, ToSafeFilename(Some("a/b"), "-")[1])
  {
    assert !IsWhiteSpace('a') && !IsWhiteSpace('/') && !IsWhiteSpace('b');
    assert Trim("a/b") == "a/b" by { TrimIdentity("a/b"); }
    ReplaceRunsIdentity("a/b", IsWhiteSpace, "_");
  }

  /** Regex.Replace(str, "[invalid]", replacement): each invalid character becomes replacement. */
  function ReplaceInvalidChars(p: Platform, s: string, replacement: string): (r: string)
    ensures forall c :: c in r ==> (c in s && !InvalidFileNameChar(p, c)) || c in replacement
  {
    if s == [] then []
    else (if InvalidFileNameChar(p, s[0]) then replacement else [s[0]]) + ReplaceInvalidChars(p, s[1..], replacement)
  }

  /** ToSafeFilename as evidently intended: white-space runs and then invalid characters replaced
      by `replacement`, and that result returned. */
  function ToSafeFilenameIntended(p: Platform, str: Option<string>, replacement: string): string {
    if IsNullOrWhiteSpace(str) then ""
    else ReplaceInvalidChars(p, ReplaceSpaceCharacters(str.value, replacement), replacement)
  }

  /** With a replacement that is itself safe, the intended result holds neither white space nor
      an invalid file-name character; null or white space still gives "". */
  lemma SafeFilenameIntended(p: Platform, str: Option<string>, replacement: string)
    requires NoWhiteSpace(replacement)
    requires forall i :: 0 <= i < |replacement| ==> !InvalidFileNameChar(p, replacement[i])
    ensures var r := ToSafeFilenameIntended(p, str, replacement);
      && (IsNullOrWhiteSpace(str) ==> r == [])
      && forall i :: 0 <= i < |r| ==> !IsWhiteSpace(r[i]) && !InvalidFileNameChar(p, r[i])
  {
    if !IsNullOrWhiteSpace(str) {
      ReplaceRunsKeeps(str.value, IsWhiteSpace, replacement);
    }
  }

  /** A name already safe is returned as it is by the intended version. */
  lemma {:induction false} SafeNameUnchanged(p: Platform, s: string, replacement: string)
    requires s != [] && NoWhiteSpace(s)
    requires forall i :: 0 <= i < |s| ==> !InvalidFileNameChar(p, s[i])
    ensures ToSafeFilenameIntended(p, Some(s), replacement) == s
  {
    ReplaceRunsIdentity(s, IsWhiteSpace, replacement);
    InvalidCharsIdentity(p, s, replacement);
  }

  lemma {:induction false} InvalidCharsIdentity(p: Platform, s: string, replacement: string)
    requires forall i :: 0 <= i < |s| ==> !InvalidFileNameChar(p, s[i])
    ensures ReplaceInvalidChars(p, s, replacement) == s
  {
    if s != [] {
      InvalidCharsIdentity(p, s[1..], replacement);
      assert [s[0]] + s[1..] == s;
    }
  }

  // ---------------------------------------------------------------- RemoveLineBreaks

  predicate NotCarriageReturn(c: char) { c != '\r' }
  predicate NotLineFeed(c: char) { c != '\n' }
  predicate NotLineBreak(c: char) { c != '\r' && c != '\n' }

  /** RemoveLineBreaks: Environment.NewLine, then "\r", then "\n" replaced by "". */
  function RemoveLineBreaks(p: Platform, str: string): string {
    ReplaceAll(ReplaceAll(ReplaceAll(str, NewLine(p), ""), "\r", ""), "\n", "")
  }

  /** On either platform the result is the input with every '\r' and '\n' dropped and all other
      characters kept in order; so it holds no line break and a second call changes nothing. */
  lemma RemoveLineBreaksSpec(p: Platform, str: string)
    ensures RemoveLineBreaks(p, str) == Filter(str, NotLineBreak)
    ensures '\r' !in RemoveLineBreaks(p, str) && '\n' !in RemoveLineBreaks(p, str)
    ensures RemoveLineBreaks(p, RemoveLineBreaks(p, str)) == RemoveLineBreaks(p, str)
  {
    LineBreaksFiltered(p, str);
    var r := Filter(str, NotLineBreak);
    assert forall i :: 0 <= i < |r| ==> NotLineBreak(r[i]);
    LineBreaksFiltered(p, r);
    FilterAll(r, NotLineBreak);
  }

  lemma LineBreaksFiltered(p: Platform, str: string)
    ensures RemoveLineBreaks(p, str) == Filter(str, NotLineBreak)
  {
    var a := ReplaceAll(str, NewLine(p), "");
    ReplaceAllChar(a, '\r', NotCarriageReturn);
    ReplaceAllChar(ReplaceAll(a, "\r", ""), '\n', NotLineFeed);
    FilterFilter(a, NotCarriageReturn, NotLineFeed, NotLineBreak);
    FilterAfterRemoving(str, NewLine(p), NotLineBreak);
  }

  // ---------------------------------------------------------------- RemoveDoubleSpaceCharacters

  predicate IsSpace(c: char) { c == ' ' }

  predicate NotSpace(c: char) { c != ' ' }

  /** RemoveDoubleSpaceCharacters: Regex.Replace(str, "[ ]+", " "). */
  function RemoveDoubleSpaceCharacters(str: string): string {
    ReplaceRuns(str, IsSpace, " ")
  }

  /** No two spaces end up side by side, every character but a space is kept in order, nothing
      new appears, and a second call changes nothing. */
  lemma DoubleSpacesRemoved(str: string)
    ensures NoAdjacent(RemoveDoubleSpaceCharacters(str), IsSpace)
    ensures Filter(RemoveDoubleSpaceCharacters(str), NotSpace) == Filter(str, NotSpace)
    ensures forall c :: c in RemoveDoubleSpaceCharacters(str) ==> c in str
    ensures RemoveDoubleSpaceCharacters(RemoveDoubleSpaceCharacters(str)) == RemoveDoubleSpaceCharacters(str)
  {
    var r := RemoveDoubleSpaceCharacters(str);
    ReplaceRunsNoAdjacent(str, IsSpace, ' ');
    ReplaceRunsKeeps(str, IsSpace, " ");
    ReplaceRunsOutside(str, IsSpace, " ", NotSpace);
    forall c | c in r ensures c in str {
      if c == ' ' {
        SpaceSurvivesOnlyFromSpace(str);
      }
    }
    ReplaceRunsSingle(r, IsSpace, ' ');
  }

  /** A space in the output comes from a space in the input. */
  lemma {:induction false} SpaceSurvivesOnlyFromSpace(str: string)
    requires ' ' in RemoveDoubleSpaceCharacters(str)
    ensures ' ' in str
    decreases |str|
  {
    if !IsSpace(str[0]) {
      SpaceSurvivesOnlyFromSpace(str[1..]);
    }
  }

  // ---------------------------------------------------------------- CutLongString

  /**
   * CutLongString: white-space-only input comes back untouched; a string no longer than length
   * gets the ellipsis; a longer one is cut to `length` characters and then back to its last
   * space, if it has one, before the ellipsis. A negative length reaches str[..length], which
   * throws.
   */
  function CutLongString(str: string, length: int, ellipsis: string): (r: Result<string>)
    ensures AllWhiteSpace(str) ==> r == Ok(str)
    ensures !AllWhiteSpace(str) && |str| <= length ==> r == Ok(str + ellipsis)
    ensures !AllWhiteSpace(str) && |str| > length && length < 0 ==> r == Err(ArgumentOutOfRange)
    ensures !AllWhiteSpace(str) && |str| > length >= 0 ==>
      && r.Ok? && |ellipsis| <= |r.value| <= length + |ellipsis|
      && var p := r.value[..|r.value| - |ellipsis|];
      && r.value == p + ellipsis && p == str[..|p|]
      && (' ' in str[..length] ==> |p| < length && str[|p|] == ' ' && ' ' !in str[|p| + 1..length])
      && (' ' !in str[..length] ==> |p| == length)
  {
    TrimEmpty(str);
    if Trim(str) == [] then Ok(str)
    else if |str| > length then
      if length < 0 then Err(ArgumentOutOfRange)
      else
        var cut := str[..length];
        var positionLastSpace := LastIndexOf(cut, ' ');
        var p := if positionLastSpace > -1 && positionLastSpace < length then cut[..positionLastSpace] else cut;
        assert (p + ellipsis)[..|p|] == p;
        assert positionLastSpace >= 0 ==> cut[positionLastSpace + 1..] == str[positionLastSpace + 1..length];
        Ok(p + ellipsis)
    else Ok(str + ellipsis)
  }

  // ---------------------------------------------------------------- RemoveQuotationMarks

  /** The marks RemoveQuotationMarks turns into an apostrophe: " ¨ “ ” „ (34, 168, 8220-8222). */
  predicate IsQuotationMark(c: char) {
    c == '"' || c == '\U{A8}' || c == '\U{201C}' || c == '\U{201D}' || c == '\U{201E}'
  }

  /** RemoveQuotationMarks: five character replacements by '\''. */
  function RemoveQuotationMarks(str: string): (r: string)
    ensures |r| == |str|
    ensures forall i :: 0 <= i < |str| ==> r[i] == if IsQuotationMark(str[i]) then '\'' else str[i]
  {
    var a := ReplaceChar(str, '"', '\'');
    var b := ReplaceChar(a, '\U{A8}', '\'');
    var c := ReplaceChar(b, '\U{201C}', '\'');
    var d := ReplaceChar(c, '\U{201D}', '\'');
    ReplaceChar(d, '\U{201E}', '\'')
  }

  /** No quotation mark is left, and a second call changes nothing. */
  lemma QuotationMarksRemoved(str: string)
    ensures forall i :: 0 <= i < |str| ==> !IsQuotationMark(RemoveQuotationMarks(str)[i])
    ensures RemoveQuotationMarks(RemoveQuotationMarks(str)) == RemoveQuotationMarks(str)
  {
    var r := RemoveQuotationMarks(str);
    assert forall i :: 0 <= i < |r| ==> RemoveQuotationMarks(r)[i] == r[i];
  }

  // ---------------------------------------------------------------- CountChars

  /** CountChars: the number of positions holding toFind. */
  method CountChars(str: string, toFind: char) returns (count: int)
    ensures count == multiset(str)[toFind]
    ensures 0 <= count <= |str|
  {
    count := 0;
    for i := 0 to |str|
      invariant count == multiset(str[..i])[toFind]
    {
      assert str[..i + 1] == str[..i] + [str[i]];
      if str[i] == toFind {
        count := count + 1;
      }
    }
    assert str[..|str|] == str;
  }

  // ---------------------------------------------------------------- ToPermaLink

  /** Characters the first permalink regex keeps: [a-z0-9\s-]. */
  predicate PermaLinkChar(c: char) {
    ('a' <= c <= 'z') || ('0' <= c <= '9') || IsWhiteSpace(c) || c == '-'
  }

  /** Characters a finished permalink is made of: [a-z0-9-]. */
  predicate SlugChar(c: char) {
    ('a' <= c <= 'z') || ('0' <= c <= '9') || c == '-'
  }

  predicate IsDash(c: char) { c == '-' }

  /**
   * ToPermaLink, with the lower-casing of String.ToLowerInvariant given as `lower`: null or white
   * space comes back as it is; otherwise trimmed, lower-cased, stripped to [a-z0-9\s-], white-space
   * runs made '-', dash runs collapsed, cut to `length` with trailing dashes dropped, and
   * URL-escaped. A negative length reaches str[..length], which throws.
   */
  function ToPermaLink(str: Option<string>, length: int, lower: char -> char): Result<Option<string>> {
    if IsNullOrWhiteSpace(str) then Ok(str)
    else
      var single := Slugify(MapChars(Trim(str.value), lower));
      if |single| > length then
        if length < 0 then Err(ArgumentOutOfRange)
        else Ok(Some(EscapeDataString(TrimEndChar(single[..length], '-'))))
      else Ok(Some(EscapeDataString(single)))
  }

  /** The three regular expressions of ToPermaLink on the lower-cased text: [^a-z0-9\s-] removed,
      white-space runs made '-' (and the result trimmed), dash runs made one '-'. */
  function Slugify(lowered: string): string {
    var kept := Filter(lowered, PermaLinkChar);
    var dashed := Trim(ReplaceRuns(kept, IsWhiteSpace, "-"));
    ReplaceRuns(dashed, IsDash, "-")
  }

  /** The slug is made only of [a-z0-9-] and never holds "--". */
  lemma SlugChars(lowered: string)
    ensures NoAdjacent(Slugify(lowered), IsDash)
    ensures forall i :: 0 <= i < |Slugify(lowered)| ==> SlugChar(Slugify(lowered)[i])
  {
    var kept := Filter(lowered, PermaLinkChar);
    var replaced := ReplaceRuns(kept, IsWhiteSpace, "-");
    var dashed := Trim(replaced);
    ReplaceRunsKeeps(kept, IsWhiteSpace, "-");
    forall c | c in dashed ensures SlugChar(c) {
      TrimKeeps(replaced, c);
    }
    ReplaceRunsKeeps(dashed, IsDash, "-");
    ReplaceRunsNoAdjacent(dashed, IsDash, '-');
  }

  /** A permalink is made only of [a-z0-9-], never holds "--", and is at most `length` long; null
      and white space pass through, and a negative length fails. */
  lemma PermaLinkSlug(str: Option<string>, length: int, lower: char -> char)
    ensures IsNullOrWhiteSpace(str) ==> ToPermaLink(str, length, lower) == Ok(str)
    ensures !IsNullOrWhiteSpace(str) && length < 0 ==> ToPermaLink(str, length, lower) == Err(ArgumentOutOfRange)
    ensures !IsNullOrWhiteSpace(str) && length >= 0 ==>
      && ToPermaLink(str, length, lower).Ok?
      && var p := ToPermaLink(str, length, lower).value;
      && p.Some? && |p.value| <= length && NoAdjacent(p.value, IsDash)
      && forall i :: 0 <= i < |p.value| ==> SlugChar(p.value[i])
  {
    if !IsNullOrWhiteSpace(str) && length >= 0 {
      var single := Slugify(MapChars(Trim(str.value), lower));
      SlugChars(MapChars(Trim(str.value), lower));
      var slug := if |single| > length then TrimEndChar(single[..length], '-') else single;
      CutSlug(single, slug);
      EscapeUnreserved(slug);
    }
  }

  /** A prefix of a slug is a slug. */
  lemma CutSlug(single: string, slug: string)
    requires NoAdjacent(single, IsDash)
    requires forall i :: 0 <= i < |single| ==> SlugChar(single[i])
    requires |slug| <= |single| && slug == single[..|slug|]
    ensures NoAdjacent(slug, IsDash)
    ensures forall i :: 0 <= i < |slug| ==> SlugChar(slug[i]) && Unreserved(slug[i])
  {
    assert forall i :: 0 <= i < |slug| ==> slug[i] == single[i];
  }

  /** RFC 3986 unreserved characters, which Uri.EscapeDataString leaves as they are. */
  predicate Unreserved(c: char) {
    ('A' <= c <= 'Z') || ('a' <= c <= 'z') || ('0' <= c <= '9') || c == '-' || c == '_' || c == '.' || c == '~'
  }

  /** The UTF-8 encoding of one Unicode scalar value. */
  function Utf8(c: char): (r: seq<int>)
    ensures 1 <= |r| <= 4
    ensures forall i :: 0 <= i < |r| ==> 0 <= r[i] < 256
  {
    var n := c as int;
    if n < 0x80 then [n]
    else if n < 0x800 then [0xC0 + n / 64, 0x80 + n % 64]
    else if n < 0x10000 then [0xE0 + n / 4096, 0x80 + (n / 64) % 64, 0x80 + n % 64]
    else [0xF0 + n / 262144, 0x80 + (n / 4096) % 64, 0x80 + (n / 64) % 64, 0x80 + n % 64]
  }

  function HexDigit(d: int): char
    requires 0 <= d < 16
  {
    "0123456789ABCDEF"[d]
  }

  /** "%XY" for each byte, upper-case hexadecimal. */
  function PercentEncode(bytes: seq<int>): (r: string)
    requires forall i :: 0 <= i < |bytes| ==> 0 <= bytes[i] < 256
    ensures |r| == 3 * |bytes|
  {
    if bytes == [] then []
    else ['%', HexDigit(bytes[0] / 16), HexDigit(bytes[0] % 16)] + PercentEncode(bytes[1..])
  }

  /** Uri.EscapeDataString: unreserved characters kept, every other character percent-encoded as
      its UTF-8 bytes. */
  function EscapeDataString(s: string): string {
    if s == [] then []
    else (if Unreserved(s[0]) then [s[0]] else PercentEncode(Utf8(s[0]))) + EscapeDataString(s[1..])
  }

  /** Escaping leaves a string of unreserved characters as it is. */
  lemma {:induction false} EscapeUnreserved(s: string)
    requires forall i :: 0 <= i < |s| ==> Unreserved(s[i])
    ensures EscapeDataString(s) == s
  {
    if s != [] {
      EscapeUnreserved(s[1..]);
      assert [s[0]] + s[1..] == s;
    }
  }

  // ---------------------------------------------------------------- ToNonBreakingSubstring

  /** The greatest index k <= e with s[k] == ' ', or -1 when there is none. */
  function LastSpaceAtOrBefore(s: string, e: int): (k: int)
    requires e < |s|
    ensures k == -1 || (0 <= k <= e && s[k] == ' ')
    ensures forall j :: k < j <= e && 0 <= j ==> s[j] != ' '
    decreases if e < 0 then 0 else e + 1
  {
    if e < 0 then -1 else if s[e] == ' ' then e else LastSpaceAtOrBefore(s, e - 1)
  }

  /**
   * What ToNonBreakingSubstring computes: from the int sum startIndex + length (which wraps
   * around past int.MaxValue), step back to a space unless that index is at or past the end;
   * stepping below 0 indexes the string at -1, and Substring rejects a start or end outside the
   * string.
   */
  function NonBreakingSubstring(str: string, startIndex: int, length: int): (r: Result<string>)
    requires IsInt(startIndex) && IsInt(length)
    ensures var e := Wrap(startIndex + length);
      r.Ok? <==> 0 <= startIndex <= e <= |str| && (e == |str| || ' ' in str[startIndex..e + 1])
    ensures r.Ok? ==>
      && Wrap(startIndex + length) == startIndex + length
      && var end := startIndex + |r.value|;
      && |r.value| <= length && r.value == str[startIndex..end]
      && (end == |str| || str[end] == ' ')
      && forall j :: end < j <= startIndex + length && j < |str| ==> str[j] != ' '
    ensures r.Err? ==> r.error == IndexOutOfRange || r.error == ArgumentOutOfRange
  {
    var e := Wrap(startIndex + length);
    var end := if e < |str| then LastSpaceAtOrBefore(str, e) else e;
    if e < |str| && end < 0 then Err(IndexOutOfRange)
    else if 0 <= startIndex <= end <= |str| then
      assert e < |str| && 0 <= startIndex ==> str[end] in str[startIndex..e + 1];
      Ok(str[startIndex..end])
    else
      assert 0 <= startIndex <= e < |str| ==> ' ' !in str[startIndex..e + 1];
      Err(ArgumentOutOfRange)
  }

  /** A start and a length whose int sum overflows wrap around to a negative index, and reading
      the string there throws, whatever the string. */
  lemma NonBreakingOverflow(str: string, startIndex: int, length: int)
    requires IsInt(startIndex) && IsInt(length)
    requires startIndex >= 0 && startIndex + length > IntMax
    ensures NonBreakingSubstring(str, startIndex, length) == Err(IndexOutOfRange)
  {
    assert Wrap(startIndex + length) < 0;
  }

  /** ToNonBreakingSubstring: the loop stepping endIndex back to a space, then Substring. */
  method ToNonBreakingSubstring(str: string, startIndex: int, length: int) returns (r: Result<string>)
    requires IsInt(startIndex) && IsInt(length)
    ensures r == NonBreakingSubstring(str, startIndex, length)
  {
    ghost var e := Wrap(startIndex + length);
    var endIndex := Wrap(startIndex + length);
    while endIndex < |str|
      invariant endIndex <= e
      invariant e >= |str| ==> endIndex == e
      invariant forall j :: endIndex < j <= e && 0 <= j < |str| ==> str[j] != ' '
      decreases endIndex + 1
    {
      if endIndex < 0 {
        assert LastSpaceAtOrBefore(str, e) == -1;
        return Err(IndexOutOfRange);
      }
      if str[endIndex] == ' ' {
        break;
      }
      endIndex := endIndex - 1;
    }
    assert e < |str| ==> endIndex == LastSpaceAtOrBefore(str, e);
    if !(0 <= startIndex <= endIndex <= |str|) {
      return Err(ArgumentOutOfRange);
    }
    return Ok(str[startIndex..endIndex]);
  }
}
