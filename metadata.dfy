/**
 * The tus Upload-Metadata lookup (the GetValue string extension): the header is a
 * comma-separated list of "key base64value" entries; a key is looked up by scanning the
 * trimmed, non-empty entries for the first that starts with the key and a space, and the
 * second space-separated token of that entry is base64-decoded and read as UTF-8.
 */
module TusMetadata {
  import opened Wrappers
  import Text
  import Base64

  type Byte = Base64.Byte

  /** The UTF-8 decoder, supplied by the caller. */
  type Utf8Decoder = seq<Byte> -> string

  /** Encoding.UTF8.GetString. */
  function GetString(utf8: Utf8Decoder, bytes: seq<Byte>): string {
    utf8(bytes)
  }

  /** Trims every piece and drops the pieces that end up empty. */
  function TrimmedNonEmpty(pieces: seq<string>): seq<string> {
    if pieces == [] then []
    else
      var t := Text.Trim(pieces[0]);
      (if t == [] then [] else [t]) + TrimmedNonEmpty(pieces[1..])
  }

  /** input.Split(',', RemoveEmptyEntries | TrimEntries). */
  function Entries(input: string): seq<string> {
    TrimmedNonEmpty(Text.Split(input, ','))
  }

  /** An entry names the property when, trimmed, it starts with the name and a space. */
  predicate Matches(part: string, name: string) {
    Text.StartsWith(Text.Trim(part), name + " ")
  }

  /** The second space-separated token of an entry, trimmed, base64-decoded and read as UTF-8. */
  function ValueOf(part: string, utf8: Utf8Decoder): Result<string> {
    var pieces := Text.Split(part, ' ');
    if |pieces| < 2 then Err(IndexOutOfRange)
    else
      match Base64.FromBase64String(Text.Trim(pieces[1]))
      case Ok(data) => Ok(GetString(utf8, data))
      case Err(e) => Err(e)
  }

  /** The first entry naming the property, if any. */
  function FirstMatch(parts: seq<string>, name: string): Option<string> {
    if parts == [] then None
    else if Matches(parts[0], name) then Some(parts[0])
    else FirstMatch(parts[1..], name)
  }

  /** The value of the first entry naming the property, or "" when none does. */
  function ValueIn(parts: seq<string>, name: string, utf8: Utf8Decoder): Result<string> {
    match FirstMatch(parts, name)
    case None => Ok("")
    case Some(part) => ValueOf(part, utf8)
  }

  /** What GetValue returns or throws; None stands for a null argument. */
  function MetadataValue(input: Option<string>, propertyName: Option<string>, utf8: Utf8Decoder): Result<string> {
    if input.None? then Err(ArgumentNull("input"))
    else if propertyName.None? then Err(ArgumentNull("propertyName"))
    else ValueIn(Entries(input.value), propertyName.value, utf8)
  }

  /** GetValue: scans the entries in order and stops at the first that names the property. */
  method GetValue(input: Option<string>, propertyName: Option<string>, utf8: Utf8Decoder) returns (r: Result<string>)
    ensures r == MetadataValue(input, propertyName, utf8)
  {
    if input.None? {
      return Err(ArgumentNull("input"));
    }
    if propertyName.None? {
      return Err(ArgumentNull("propertyName"));
    }
    var name := propertyName.value;
    var propertyValue := "";
    var parts := Entries(input.value);
    var i := 0;
    while i < |parts|
      invariant 0 <= i <= |parts|
      invariant FirstMatch(parts[i..], name) == FirstMatch(parts, name)
      invariant propertyValue == ""
    {
      assert parts[i..][0] == parts[i] && parts[i..][1..] == parts[i + 1..];
      if !Matches(parts[i], name) {
        i := i + 1;
        continue;
      }
      var pieces := Text.Split(parts[i], ' ');
      if |pieces| < 2 {
        return Err(IndexOutOfRange);
      }
      var data := Base64.FromBase64String(Text.Trim(pieces[1]));
      if data.Err? {
        return Err(data.error);
      }
      propertyValue := GetString(utf8, data.value);
      break;
    }
    assert i == |parts| ==> parts[i..] == [];
    return Ok(propertyValue);
  }

  /** FirstMatch finds an entry naming the property exactly when there is one. */
  lemma {:induction false} FirstMatchSpec(parts: seq<string>, name: string)
    ensures var r := FirstMatch(parts, name);
      && (r.Some? ==> r.value in parts && Matches(r.value, name))
      && (r.None? <==> forall i :: 0 <= i < |parts| ==> !Matches(parts[i], name))
  {
    if parts != [] {
      FirstMatchSpec(parts[1..], name);
    }
  }

  lemma {:induction false} FirstMatchAt(parts: seq<string>, name: string, j: nat)
    requires j < |parts| && Matches(parts[j], name)
    requires forall i :: 0 <= i < j ==> !Matches(parts[i], name)
    ensures FirstMatch(parts, name) == Some(parts[j])
  {
    if j > 0 {
      FirstMatchAt(parts[1..], name, j - 1);
    }
  }

  /** No entry names the property: the result is "". */
  lemma NoMatchReadsEmpty(parts: seq<string>, name: string, utf8: Utf8Decoder)
    requires forall i :: 0 <= i < |parts| ==> !Matches(parts[i], name)
    ensures ValueIn(parts, name, utf8) == Ok("")
  {
    FirstMatchSpec(parts, name);
  }

  /** The first entry naming the property decides the result; later duplicates are ignored. */
  lemma FirstMatchWins(parts: seq<string>, name: string, j: nat, utf8: Utf8Decoder)
    requires j < |parts| && Matches(parts[j], name)
    requires forall i :: 0 <= i < j ==> !Matches(parts[i], name)
    ensures ValueIn(parts, name, utf8) == ValueOf(parts[j], utf8)
  {
    FirstMatchAt(parts, name, j);
  }

  /** An entry that names the property has a second token, so only bad base64 can make it throw. */
  lemma ValueOfMatching(part: string, name: string, utf8: Utf8Decoder)
    requires Matches(part, name)
    ensures ValueOf(part, utf8).Err? ==> ValueOf(part, utf8).error == Format
  {
    var t := Text.Trim(part);
    assert t[|name|] == ' ';
    Text.TrimKeeps(part, ' ');
    Text.SplitAtSeparator(part, ' ');
  }

  /** Only a null argument or malformed base64 makes the lookup throw. */
  lemma OnlyNullOrFormatThrows(input: Option<string>, propertyName: Option<string>, utf8: Utf8Decoder)
    ensures var r := MetadataValue(input, propertyName, utf8);
      r.Err? ==> r.error.ArgumentNull? || r.error == Format
  {
    if input.Some? && propertyName.Some? {
      var m := FirstMatch(Entries(input.value), propertyName.value);
      assert MetadataValue(input, propertyName, utf8) == if m.None? then Ok("") else ValueOf(m.value, utf8);
      FirstMatchSpec(Entries(input.value), propertyName.value);
      if m.Some? {
        ValueOfMatching(m.value, propertyName.value, utf8);
      }
    }
  }

  /** A key with no value never matches: the match needs the space after the name. */
  lemma KeyWithoutValueNeverMatches(key: string, name: string)
    requires Text.NoWhiteSpace(key)
    ensures !Matches(key, name)
  {
    Text.TrimIdentity(key);
    Text.StartsWithCharAt(key, name, ' ');
  }

  /** A key followed by a space and a value matches exactly its own name: a different key
      that merely starts with the name ("names" for "name") does not. */
  lemma EntryMatchesOnlyItsKey(key: string, rest: string, name: string)
    requires key != [] && Text.NoWhiteSpace(key) && rest != [] && Text.NoWhiteSpace(rest)
    ensures Matches(key + " " + rest, name) <==> name == key
  {
    var part := key + " " + rest;
    Text.TrimIdentity(part);
    if Matches(part, name) {
      Text.StartsWithCharAt(part, name, ' ');
      assert forall i :: 0 <= i < |key| ==> part[i] == key[i];
      assert forall i :: |key| < i < |part| ==> part[i] == rest[i - |key| - 1];
      assert |name| == |key|;
      assert part[..|key|] == key;
      assert name == (name + " ")[..|name|];
    }
    if name == key {
      assert part[..|name| + 1] == name + " ";
    }
  }

  /** One header entry: a key and the bytes of its value. */
  datatype Entry = Entry(key: string, value: seq<Byte>)

  /** "key base64(value)". */
  function Encoded(e: Entry): string {
    e.key + " " + Base64.Encode(e.value)
  }

  function EncodedAll(es: seq<Entry>): (r: seq<string>)
    ensures |r| == |es| && forall i :: 0 <= i < |es| ==> r[i] == Encoded(es[i])
  {
    if es == [] then [] else [Encoded(es[0])] + EncodedAll(es[1..])
  }

  /** The Upload-Metadata header a client sends for the given entries. */
  function Header(es: seq<Entry>): string {
    Text.Join(",", EncodedAll(es))
  }

  predicate ValidKey(k: string) {
    k != [] && Text.NoWhiteSpace(k) && ',' !in k
  }

  predicate ValidKeys(es: seq<Entry>) {
    forall i :: 0 <= i < |es| ==> ValidKey(es[i].key)
  }

  /** Distinct keys free of white space and commas. */
  predicate WellFormed(es: seq<Entry>) {
    && ValidKeys(es)
    && (forall i, j :: 0 <= i < j < |es| ==> es[i].key != es[j].key)
  }

  /** An entry as the trimmed split returns it: an empty value leaves only the key. */
  function TrimmedEntry(e: Entry): string {
    if e.value == [] then e.key else Encoded(e)
  }

  lemma TrimEncoded(e: Entry)
    requires ValidKey(e.key)
    ensures Text.Trim(Encoded(e)) == TrimmedEntry(e)
    ensures Text.Trim(TrimmedEntry(e)) == TrimmedEntry(e)
    ensures TrimmedEntry(e) != []
  {
    var s := Encoded(e);
    var enc := Base64.Encode(e.value);
    Base64.EncodeIsPlain(e.value);
    Text.TrimIdentity(e.key);
    if e.value == [] {
      assert s == e.key + " ";
      assert Text.SkipLeading(s, 0) == 0;
      assert Text.SkipTrailing(s, 0, |s|) == |s| - 1;
      assert s[..|s| - 1] == e.key;
    } else {
      assert s[|s| - 1] == enc[|enc| - 1];
      Text.TrimIdentity(s);
    }
  }

  /** A trimmed entry names exactly its own key, and only when it carries a value. */
  lemma MatchesEntry(e: Entry, name: string)
    requires ValidKey(e.key)
    ensures Matches(TrimmedEntry(e), name) <==> e.value != [] && e.key == name
  {
    if e.value == [] {
      KeyWithoutValueNeverMatches(e.key, name);
    } else {
      Base64.EncodeIsPlain(e.value);
      EntryMatchesOnlyItsKey(e.key, Base64.Encode(e.value), name);
    }
  }

  lemma ValueOfEncoded(e: Entry, utf8: Utf8Decoder)
    requires ValidKey(e.key) && e.value != []
    ensures ValueOf(Encoded(e), utf8) == Ok(utf8(e.value))
  {
    var enc := Base64.Encode(e.value);
    Base64.EncodeIsPlain(e.value);
    Text.NoSpace(e.key);
    Text.NoSpace(enc);
    Text.SplitAfterPiece(e.key, ' ', enc);
    Text.SplitWithoutSeparator(enc, ' ');
    assert Text.Split(Encoded(e), ' ') == [e.key, enc];
    Text.TrimIdentity(enc);
    Base64.FromBase64StringEncode(e.value);
  }

  lemma EncodedNoComma(e: Entry)
    requires ValidKey(e.key)
    ensures ',' !in Encoded(e)
  {
    var enc := Base64.Encode(e.value);
    Base64.EncodeIsPlain(e.value);
    var s := Encoded(e);
    forall k | 0 <= k < |s| ensures s[k] != ',' {
      if k < |e.key| {
        assert s[k] == e.key[k];
      } else if k > |e.key| {
        assert s[k] == enc[k - |e.key| - 1];
      }
    }
  }

  /** Pieces that each trim to a non-empty string are all kept, trimmed. */
  lemma {:induction false} TrimmedNonEmptyOf(pieces: seq<string>, out: seq<string>)
    requires |pieces| == |out|
    requires forall i :: 0 <= i < |pieces| ==> Text.Trim(pieces[i]) == out[i] && out[i] != []
    ensures TrimmedNonEmpty(pieces) == out
  {
    if pieces != [] {
      TrimmedNonEmptyOf(pieces[1..], out[1..]);
      assert out == [out[0]] + out[1..];
    }
  }

  lemma EncodedPieces(es: seq<Entry>)
    requires ValidKeys(es)
    ensures forall i :: 0 <= i < |es| ==>
      Text.Trim(EncodedAll(es)[i]) == TrimmedEntry(es[i]) && TrimmedEntry(es[i]) != [] && ',' !in EncodedAll(es)[i]
  {
    forall i | 0 <= i < |es|
      ensures Text.Trim(EncodedAll(es)[i]) == TrimmedEntry(es[i]) && TrimmedEntry(es[i]) != []
      ensures ',' !in EncodedAll(es)[i]
    {
      TrimEncoded(es[i]);
      EncodedNoComma(es[i]);
    }
  }

  lemma EntriesOfEmptyHeader()
    ensures Entries(Header([])) == []
  {
    assert Header([]) == [];
    assert Text.Split([], ',') == [[]];
    assert Text.Trim([]) == [];
  }

  /** Joining comma-free pieces that each trim to a non-empty string and taking the entries back. */
  lemma EntriesOfJoin(parts: seq<string>, out: seq<string>)
    requires parts != [] && |parts| == |out|
    requires forall i :: 0 <= i < |parts| ==> ',' !in parts[i] && Text.Trim(parts[i]) == out[i] && out[i] != []
    ensures Entries(Text.Join(",", parts)) == out
  {
    Text.SplitJoin(parts, ',');
    TrimmedNonEmptyOf(parts, out);
  }

  /** An entry list as the trimmed split returns it. */
  function TrimmedAll(es: seq<Entry>): (r: seq<string>)
    ensures |r| == |es| && forall i :: 0 <= i < |es| ==> r[i] == TrimmedEntry(es[i])
  {
    if es == [] then [] else [TrimmedEntry(es[0])] + TrimmedAll(es[1..])
  }

  /** The entries of a header are the trimmed encoded entries, in order. */
  lemma EntriesOfHeader(es: seq<Entry>)
    requires ValidKeys(es)
    ensures Entries(Header(es)) == TrimmedAll(es)
  {
    if es == [] {
      EntriesOfEmptyHeader();
    } else {
      EncodedPieces(es);
      EntriesOfJoin(EncodedAll(es), TrimmedAll(es));
    }
  }

  /** Round trip: looking a key up in the header built from distinct keys gives back its value. */
  lemma HeaderRoundTrip(es: seq<Entry>, j: nat, utf8: Utf8Decoder)
    requires WellFormed(es) && j < |es|
    requires utf8([]) == ""
    ensures MetadataValue(Some(Header(es)), Some(es[j].key), utf8) == Ok(utf8(es[j].value))
  {
    var name := es[j].key;
    var parts := Entries(Header(es));
    EntriesOfHeader(es);
    forall i | 0 <= i < |parts| && i != j ensures !Matches(parts[i], name) {
      MatchesEntry(es[i], name);
    }
    MatchesEntry(es[j], name);
    FirstMatchSpec(parts, name);
    if es[j].value != [] {
      FirstMatchAt(parts, name, j);
      ValueOfEncoded(es[j], utf8);
    }
  }

  /** A name that is not among the keys reads as "". */
  lemma HeaderAbsentKey(es: seq<Entry>, name: string, utf8: Utf8Decoder)
    requires WellFormed(es)
    requires forall i :: 0 <= i < |es| ==> es[i].key != name
    ensures MetadataValue(Some(Header(es)), Some(name), utf8) == Ok("")
  {
    var parts := Entries(Header(es));
    EntriesOfHeader(es);
    forall i | 0 <= i < |parts| ensures !Matches(parts[i], name) {
      MatchesEntry(es[i], name);
    }
    FirstMatchSpec(parts, name);
  }
}
