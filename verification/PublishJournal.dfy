/** The PREPARED journal and the commit receipt of a backup publication: their exact text forms and
    the proof that each form is a bijection. SHA-256 is a parameter, so nothing here depends on it
    beyond its 32-byte length. */
module PublishJournal {
  import opened Wrappers
  import opened MachineIntegers
  import opened PublishNames
  import opened Text

  type Digest = d: seq<byte> | |d| == 32 witness seq(32, _ => 0)

  const JOURNAL_MAGIC := "LRBPC1"
  const JOURNAL_MAX_BYTES := 4096
  const CHECKSUM_KEY := "Checksum="
  const COMMITTED_PREFIX := "LetRecovery-BackupCommitted-"

  datatype PublishMode = Create | Replace | Append

  datatype FileId = FileId(volume: u32, index: u64)

  datatype FileExpectation = FileExpectation(length: u64, sha256: Digest)

  datatype FileIdentity = FileIdentity(id: FileId, expectation: FileExpectation)

  datatype Journal = Journal(
    mode: PublishMode,
    sessionId: string,
    targetName: string,
    stagedExtension: string,
    oldFile: Option<FileIdentity>,
    newFile: FileIdentity)

  datatype JournalError =
    | BadSize
    | BadFraming
    | BadChecksum
    | BadSchema
    | BadField
    | BadName
    | ModeMismatch

  // ---------------------------------------------------------------------------------------------
  // Modes and sessions
  // ---------------------------------------------------------------------------------------------

  function ModeText(mode: PublishMode): string {
    match mode
    case Create => "create"
    case Replace => "replace"
    case Append => "append"
  }

  function ParseMode(s: string): (r: Option<PublishMode>)
    ensures r.Some? ==> ModeText(r.value) == s
  {
    if s == "create" then Some(Create)
    else if s == "replace" then Some(Replace)
    else if s == "append" then Some(Append)
    else None
  }

  predicate ValidSessionId(s: string) {
    |s| == 32 && AllHex(s)
  }

  // ---------------------------------------------------------------------------------------------
  // Journal text
  // ---------------------------------------------------------------------------------------------

  predicate ValidIdentity(identity: FileIdentity) {
    identity.expectation.length != 0 && identity.id.index != 0
  }

  predicate ValidJournal(j: Journal) {
    && ValidSessionId(j.sessionId)
    && ValidComponent(j.targetName)
    && ValidExtension(j.stagedExtension)
    && MatchingExtension(j.targetName, j.stagedExtension)
    && (j.mode == Create <==> j.oldFile.None?)
    && (j.oldFile.Some? ==> ValidIdentity(j.oldFile.value))
    && ValidIdentity(j.newFile)
  }

  /** The four texts that describe one file object; a missing one is four dashes. */
  function IdentityTexts(identity: Option<FileIdentity>): (string, string, string, string) {
    match identity
    case None => ("-", "-", "-", "-")
    case Some(f) =>
      (Decimal(f.expectation.length), EncodeHex(f.expectation.sha256), Decimal(f.id.volume), Decimal(f.id.index))
  }

  const STATE_LINE := "State=PREPARED"

  /** The keys of lines 3 to 14, in order. */
  const KEYS := [
    "Mode=", "SessionId=", "TargetName=", "StagedExtension=",
    "OldLength=", "OldSha256=", "OldVolume=", "OldFileId=",
    "NewLength=", "NewSha256=", "NewVolume=", "NewFileId=" ]

  function Values(j: Journal): (values: seq<string>)
    ensures |values| == |KEYS|
  {
    var prior := IdentityTexts(j.oldFile);
    var next := IdentityTexts(Some(j.newFile));
    [ ModeText(j.mode), j.sessionId, j.targetName, j.stagedExtension,
      prior.0, prior.1, prior.2, prior.3,
      next.0, next.1, next.2, next.3 ]
  }

  /** The fourteen lines that carry `values` behind the fixed header. */
  function KeyedLines(values: seq<string>): (lines: seq<string>)
    requires |values| == |KEYS|
    ensures |lines| == 14
  {
    [JOURNAL_MAGIC, STATE_LINE] + seq(|KEYS|, i requires 0 <= i < |KEYS| => KEYS[i] + values[i])
  }

  function Lines(j: Journal): (lines: seq<string>)
    ensures |lines| == 14
  {
    KeyedLines(Values(j))
  }

  function ChecksumLine(digest: string -> Digest, body: string): string {
    CHECKSUM_KEY + EncodeHex(digest(body))
  }

  function Encode(digest: string -> Digest, j: Journal): string {
    var body := Terminated(Lines(j));
    body + ChecksumLine(digest, body) + CRLF
  }

  function Utf8Width(c: char): nat {
    if c < '\U{80}' then 1 else if c < '\U{800}' then 2 else if c < '\U{10000}' then 3 else 4
  }

  function Utf8Length(s: string): nat {
    if s == "" then 0 else Utf8Width(s[0]) + Utf8Length(s[1..])
  }

  function DecodeHash(s: string): Option<Digest> {
    if |s| == 64 && AllHex(s) then Some(DecodeHex(s)) else None
  }

  function ParseIdentity(texts: (string, string, string, string)): Result<FileIdentity, JournalError> {
    var length := ParseCanonicalU64(texts.0);
    var hash := DecodeHash(texts.1);
    var volume := ParseCanonicalU64(texts.2);
    var index := ParseCanonicalU64(texts.3);
    if length.None? || hash.None? || volume.None? || volume.value > U32_MAX || index.None? then Failure(BadField)
    else if length.value == 0 || index.value == 0 then Failure(BadField)
    else Success(FileIdentity(FileId(volume.value, index.value), FileExpectation(length.value, hash.value)))
  }

  /** The twelve field values; `None` when the header or a key is not the expected one. */
  function LineValues(lines: seq<string>): (r: Option<seq<string>>)
    ensures r.Some? ==> |r.value| == |KEYS|
  {
    if |lines| != 14 || lines[0] != JOURNAL_MAGIC || lines[1] != STATE_LINE then None
    else if exists i :: 0 <= i < |KEYS| && !StartsWith(lines[i + 2], KEYS[i]) then None
    else Some(seq(|KEYS|, i requires 0 <= i < |KEYS| => lines[i + 2][|KEYS[i]|..]))
  }

  function ParseValues(values: seq<string>): Result<Journal, JournalError>
    requires |values| == |KEYS|
  {
    var mode := ParseMode(values[0]);
    if mode.None? || !ValidSessionId(values[1]) then Failure(BadField) else
    if !ValidComponent(values[2]) || !ValidExtension(values[3]) || !MatchingExtension(values[2], values[3])
    then Failure(BadName) else
    var prior :- ParseOptionalIdentity((values[4], values[5], values[6], values[7]));
    if (mode.value == Create) != prior.None? then Failure(ModeMismatch) else
    var next :- ParseIdentity((values[8], values[9], values[10], values[11]));
    Success(Journal(mode.value, values[1], values[2], values[3], prior, next))
  }

  function ParseLines(lines: seq<string>): Result<Journal, JournalError> {
    var values := LineValues(lines);
    if values.None? then Failure(BadSchema) else ParseValues(values.value)
  }

  function ParseOptionalIdentity(texts: (string, string, string, string)): Result<Option<FileIdentity>, JournalError> {
    if texts == ("-", "-", "-", "-") then Success(None)
    else
      var identity :- ParseIdentity(texts);
      Success(Some(identity))
  }

  /** The text before the last checksum key, and the text between that key and the final CRLF. */
  function SplitChecksum(text: string): (r: Option<(string, string)>)
    ensures r.Some? ==> text == r.value.0 + (CHECKSUM_KEY + r.value.1) + CRLF
  {
    var start :- LastOccurrence(text, CHECKSUM_KEY, |text|);
    var value :- StripPrefix(text[start..], CHECKSUM_KEY);
    var hex :- StripSuffix(value, CRLF);
    assert text == text[..start] + (CHECKSUM_KEY + hex) + CRLF;
    Some((text[..start], hex))
  }

  /** The text that the trailing checksum covers, with the checksum verified. */
  function CheckedBody(digest: string -> Digest, text: string): Result<string, JournalError> {
    var parts := SplitChecksum(text);
    if parts.None? then Failure(BadChecksum) else
    var checksum := DecodeHash(parts.value.1);
    if checksum.None? || digest(parts.value.0) != checksum.value then Failure(BadChecksum)
    else Success(parts.value.0)
  }

  function Parse(digest: string -> Digest, text: string): Result<Journal, JournalError> {
    if text == "" || Utf8Length(text) > JOURNAL_MAX_BYTES then Failure(BadSize) else
    if !EndsWith(text, CRLF) || '\0' in text || HasDoubleLineFeed(text) then Failure(BadFraming) else
    var body :- CheckedBody(digest, text);
    var framed := StripSuffix(body, CRLF);
    if framed.None? then Failure(BadFraming) else
    ParseLines(SplitLines(framed.value))
  }

  // ---------------------------------------------------------------------------------------------
  // Parsing an encoded journal
  // ---------------------------------------------------------------------------------------------

  lemma IdentityRoundTrip(f: FileIdentity)
    requires ValidIdentity(f)
    ensures ParseIdentity(IdentityTexts(Some(f))) == Success(f)
    ensures ParseOptionalIdentity(IdentityTexts(Some(f))) == Success(Some(f))
  {
    DecimalRoundTrip(f.expectation.length);
    DecimalRoundTrip(f.id.volume);
    DecimalRoundTrip(f.id.index);
    DecodeOfEncodeHex(f.expectation.sha256);
    assert Decimal(f.expectation.length)[0] != '-';
  }

  lemma ParseModeOfText(mode: PublishMode)
    ensures ParseMode(ModeText(mode)) == Some(mode)
  {
  }

  lemma ParseValuesOfFields(values: seq<string>, j: Journal)
    requires |values| == |KEYS| && ValidJournal(j)
    requires ParseMode(values[0]) == Some(j.mode)
    requires values[1] == j.sessionId && values[2] == j.targetName && values[3] == j.stagedExtension
    requires ParseOptionalIdentity((values[4], values[5], values[6], values[7])) == Success(j.oldFile)
    requires ParseIdentity((values[8], values[9], values[10], values[11])) == Success(j.newFile)
    ensures ParseValues(values) == Success(j)
  {
  }

  lemma OptionalIdentityRoundTrip(identity: Option<FileIdentity>)
    requires identity.Some? ==> ValidIdentity(identity.value)
    ensures ParseOptionalIdentity(IdentityTexts(identity)) == Success(identity)
  {
    if identity.Some? { IdentityRoundTrip(identity.value); }
  }

  /** The values of a journal are its texts, in the order of the keys. */
  lemma ValuesAre(j: Journal)
    ensures var v := Values(j);
      && v[0] == ModeText(j.mode) && v[1] == j.sessionId && v[2] == j.targetName && v[3] == j.stagedExtension
      && (v[4], v[5], v[6], v[7]) == IdentityTexts(j.oldFile)
      && (v[8], v[9], v[10], v[11]) == IdentityTexts(Some(j.newFile))
  {
  }

  lemma ParseValuesOfValues(j: Journal)
    requires ValidJournal(j)
    ensures ParseValues(Values(j)) == Success(j)
  {
    ParseModeOfText(j.mode);
    OptionalIdentityRoundTrip(j.oldFile);
    IdentityRoundTrip(j.newFile);
    ValuesAre(j);
    ParseValuesOfFields(Values(j), j);
  }

  lemma LineValuesOfKeyedLines(values: seq<string>)
    requires |values| == |KEYS|
    ensures LineValues(KeyedLines(values)) == Some(values)
  {
    var lines := KeyedLines(values);
    forall i | 0 <= i < |KEYS|
      ensures StartsWith(lines[i + 2], KEYS[i]) && lines[i + 2][|KEYS[i]|..] == values[i]
    {
      assert lines[i + 2] == KEYS[i] + values[i];
    }
    assert LineValues(lines).value == values;
  }

  /** No framing or NUL character anywhere. */
  predicate Plain(s: string) {
    OneLine(s) && forall i :: 0 <= i < |s| ==> s[i] != '\0'
  }

  lemma PlainPieces(j: Journal)
    requires ValidJournal(j)
    ensures Plain(ModeText(j.mode)) && Plain(j.sessionId) && Plain(j.targetName) && Plain(j.stagedExtension)
  {
    assert forall i :: 0 <= i < |j.sessionId| ==> IsHex(j.sessionId[i]);
    assert forall i :: 0 <= i < |j.targetName| ==> !ForbiddenCharacter(j.targetName[i]);
  }

  lemma PlainIdentity(identity: Option<FileIdentity>)
    ensures var t := IdentityTexts(identity); Plain(t.0) && Plain(t.1) && Plain(t.2) && Plain(t.3)
  {
    if identity.Some? {
      var t := IdentityTexts(identity);
      assert AllDigits(t.0) && AllHex(t.1) && AllDigits(t.2) && AllDigits(t.3);
    }
  }

  lemma PlainConcat(a: string, b: string)
    requires Plain(a) && Plain(b)
    ensures Plain(a + b)
  {
  }

  predicate PlainEach(lines: seq<string>) {
    forall i :: 0 <= i < |lines| ==> Plain(lines[i])
  }

  lemma ValuesArePlain(j: Journal)
    requires ValidJournal(j)
    ensures PlainEach(Values(j))
  {
    PlainPieces(j);
    PlainIdentity(j.oldFile);
    PlainIdentity(Some(j.newFile));
  }

  lemma RequestKeysArePlain()
    ensures Plain("Mode=") && Plain("SessionId=") && Plain("TargetName=") && Plain("StagedExtension=")
  {
  }

  lemma OldKeysArePlain()
    ensures Plain("OldLength=") && Plain("OldSha256=") && Plain("OldVolume=") && Plain("OldFileId=")
  {
  }

  lemma NewKeysArePlain()
    ensures Plain("NewLength=") && Plain("NewSha256=") && Plain("NewVolume=") && Plain("NewFileId=")
  {
  }

  lemma KeysArePlain()
    ensures PlainEach(KEYS)
  {
    RequestKeysArePlain();
    OldKeysArePlain();
    NewKeysArePlain();
  }

  lemma LinesArePlain(j: Journal)
    requires ValidJournal(j)
    ensures PlainEach(Lines(j)) && OneLineEach(Lines(j))
  {
    ValuesArePlain(j);
    KeysArePlain();
    KeyedLinesArePlain(Values(j));
  }

  lemma KeyedLinesArePlain(values: seq<string>)
    requires |values| == |KEYS| && PlainEach(values) && PlainEach(KEYS)
    ensures PlainEach(KeyedLines(values)) && OneLineEach(KeyedLines(values))
  {
    var lines := KeyedLines(values);
    forall i | 0 <= i < |lines| ensures Plain(lines[i]) {
      if i >= 2 {
        PlainConcat(KEYS[i - 2], values[i - 2]);
      }
    }
  }

  lemma {:induction false} NoNulInTerminated(lines: seq<string>)
    requires PlainEach(lines)
    ensures '\0' !in Terminated(lines)
  {
    if lines != [] {
      forall i | 0 <= i < |lines[1..]| ensures Plain(lines[1..][i]) {
        assert lines[1..][i] == lines[i + 1];
      }
      NoNulInTerminated(lines[1..]);
      assert Plain(lines[0]);
    }
  }

  lemma {:induction false} TerminatedAppend(lines: seq<string>, line: string)
    ensures Terminated(lines + [line]) == Terminated(lines) + line + CRLF
  {
    if lines == [] {
      assert (lines + [line])[1..] == [];
    } else {
      TerminatedAppend(lines[1..], line);
      assert (lines + [line])[1..] == lines[1..] + [line];
    }
  }

  /** All fifteen lines of the encoded form. */
  function AllLines(digest: string -> Digest, j: Journal): seq<string> {
    Lines(j) + [ChecksumLine(digest, Terminated(Lines(j)))]
  }

  lemma EncodeIsAllLines(digest: string -> Digest, j: Journal)
    requires ValidJournal(j)
    ensures Encode(digest, j) == Terminated(AllLines(digest, j))
    ensures PlainEach(AllLines(digest, j)) && OneLineEach(AllLines(digest, j))
  {
    LinesArePlain(j);
    var line := ChecksumLine(digest, Terminated(Lines(j)));
    TerminatedAppend(Lines(j), line);
    var hex := EncodeHex(digest(Terminated(Lines(j))));
    assert AllHex(hex);
    PlainConcat(CHECKSUM_KEY, hex);
    forall i | 0 <= i < 15 ensures Plain(AllLines(digest, j)[i]) {
      if i < 14 { assert AllLines(digest, j)[i] == Lines(j)[i]; }
    }
  }

  /** The checksum key cannot occur again behind its own line start. */
  lemma LastChecksumKey(body: string, hex: string)
    requires AllHex(hex)
    ensures LastOccurrence(body + CHECKSUM_KEY + hex + CRLF, CHECKSUM_KEY, |body + CHECKSUM_KEY + hex + CRLF|)
        == Some(|body|)
  {
    var text := body + CHECKSUM_KEY + hex + CRLF;
    assert OccursAt(text, CHECKSUM_KEY, |body|);
    forall i: nat | |body| < i < |text| ensures !OccursAt(text, CHECKSUM_KEY, i) {
      if i < |body| + |CHECKSUM_KEY| {
        assert text[i] == CHECKSUM_KEY[i - |body|];
      } else if i < |body| + |CHECKSUM_KEY| + |hex| {
        assert text[i] == hex[i - |body| - |CHECKSUM_KEY|];
      }
      assert text[i] != 'C';
      assert i + |CHECKSUM_KEY| <= |text| ==> text[i..i + |CHECKSUM_KEY|][0] == text[i];
    }
  }

  lemma CheckedBodyOfEncode(digest: string -> Digest, body: string)
    ensures CheckedBody(digest, body + ChecksumLine(digest, body) + CRLF) == Success(body)
  {
    var hex := EncodeHex(digest(body));
    var text := body + ChecksumLine(digest, body) + CRLF;
    assert text == body + CHECKSUM_KEY + hex + CRLF;
    LastChecksumKey(body, hex);
    assert text[..|body|] == body;
    assert text[|body|..] == CHECKSUM_KEY + (hex + CRLF);
    assert (CHECKSUM_KEY + (hex + CRLF))[|CHECKSUM_KEY|..] == hex + CRLF;
    assert (hex + CRLF)[|hex|..] == CRLF && (hex + CRLF)[..|hex|] == hex;
    DecodeOfEncodeHex(digest(body));
  }

  lemma EncodeIsFramed(digest: string -> Digest, j: Journal)
    requires ValidJournal(j)
    ensures var text := Encode(digest, j);
            text != "" && EndsWith(text, CRLF) && '\0' !in text && !HasDoubleLineFeed(text)
  {
    var text := Encode(digest, j);
    EncodeIsAllLines(digest, j);
    EndsInCrLf(AllLines(digest, j));
    NoNulInTerminated(AllLines(digest, j));
    TerminatedIsOnlyCrLf(AllLines(digest, j));
  }

  /** Parsing the encoded form of a valid journal within the byte limit returns that journal. */
  lemma ParseOfEncode(digest: string -> Digest, j: Journal)
    requires ValidJournal(j)
    requires Utf8Length(Encode(digest, j)) <= JOURNAL_MAX_BYTES
    ensures Parse(digest, Encode(digest, j)) == Success(j)
  {
    var body := Terminated(Lines(j));
    EncodeIsFramed(digest, j);
    CheckedBodyOfEncode(digest, body);
    LinesArePlain(j);
    EndsInCrLf(Lines(j));
    var framed := StripSuffix(body, CRLF).value;
    SplitOfTerminated(Lines(j), framed);
    LineValuesOfKeyedLines(Values(j));
    ParseValuesOfValues(j);
  }

  // ---------------------------------------------------------------------------------------------
  // The text itself
  // ---------------------------------------------------------------------------------------------

  /** The lines of a journal, written out. */
  lemma JournalText(digest: string -> Digest, j: Journal)
    ensures var l := Lines(j);
      && l[0] == "LRBPC1" && l[1] == "State=PREPARED"
      && l[2] == "Mode=" + (if j.mode == Create then "create" else if j.mode == Replace then "replace" else "append")
      && l[3] == "SessionId=" + j.sessionId
      && l[4] == "TargetName=" + j.targetName
      && l[5] == "StagedExtension=" + j.stagedExtension
      && l[6] == "OldLength=" + (if j.oldFile.None? then "-" else Decimal(j.oldFile.value.expectation.length))
      && l[7] == "OldSha256=" + (if j.oldFile.None? then "-" else EncodeHex(j.oldFile.value.expectation.sha256))
      && l[8] == "OldVolume=" + (if j.oldFile.None? then "-" else Decimal(j.oldFile.value.id.volume))
      && l[9] == "OldFileId=" + (if j.oldFile.None? then "-" else Decimal(j.oldFile.value.id.index))
      && l[10] == "NewLength=" + Decimal(j.newFile.expectation.length)
      && l[11] == "NewSha256=" + EncodeHex(j.newFile.expectation.sha256)
      && l[12] == "NewVolume=" + Decimal(j.newFile.id.volume)
      && l[13] == "NewFileId=" + Decimal(j.newFile.id.index)
    ensures var body := Terminated(Lines(j));
      Encode(digest, j) == body + ("Checksum=" + EncodeHex(digest(body))) + "\r\n"
  {
    ValuesAre(j);
    LinesAreKeyed(j);
  }

  lemma LinesAreKeyed(j: Journal)
    ensures var v, l := Values(j), Lines(j);
      && l[0] == "LRBPC1" && l[1] == "State=PREPARED"
      && l[2] == "Mode=" + v[0] && l[3] == "SessionId=" + v[1]
      && l[4] == "TargetName=" + v[2] && l[5] == "StagedExtension=" + v[3]
      && l[6] == "OldLength=" + v[4] && l[7] == "OldSha256=" + v[5]
      && l[8] == "OldVolume=" + v[6] && l[9] == "OldFileId=" + v[7]
      && l[10] == "NewLength=" + v[8] && l[11] == "NewSha256=" + v[9]
      && l[12] == "NewVolume=" + v[10] && l[13] == "NewFileId=" + v[11]
  {
  }

  function CountFrom(s: string, limit: int): nat {
    if s == "" then 0 else (if s[0] as int >= limit then 1 else 0) + CountFrom(s[1..], limit)
  }

  /** One byte for every character, and one more from U+0080, U+0800 and U+10000 on. */
  lemma {:induction false} Utf8LengthIs(s: string)
    ensures Utf8Length(s) == |s| + CountFrom(s, 0x80) + CountFrom(s, 0x800) + CountFrom(s, 0x10000)
    ensures |s| <= Utf8Length(s) <= 4 * |s|
    ensures (forall i :: 0 <= i < |s| ==> s[i] as int < 0x80) ==> Utf8Length(s) == |s|
  {
    if s != "" {
      Utf8LengthIs(s[1..]);
    }
  }

  lemma {:induction false} Utf8LengthOfConcat(a: string, b: string)
    ensures Utf8Length(a + b) == Utf8Length(a) + Utf8Length(b)
  {
    if a == "" {
      assert a + b == b;
    } else {
      Utf8LengthOfConcat(a[1..], b);
      assert (a + b)[1..] == a[1..] + b;
    }
  }

  predicate Short(line: string) {
    Utf8Length(line) <= 128
  }

  /** Short lines, except for line `k`. */
  lemma {:induction false} TerminatedLength(lines: seq<string>, k: int)
    requires forall i :: 0 <= i < |lines| && i != k ==> Short(lines[i])
    ensures Utf8Length(Terminated(lines)) <=
      130 * |lines| + if 0 <= k < |lines| then Utf8Length(lines[k]) else 0
  {
    if lines != [] {
      TerminatedLength(lines[1..], k - 1);
      Utf8LengthOfConcat(lines[0] + CRLF, Terminated(lines[1..]));
      Utf8LengthOfConcat(lines[0], CRLF);
      Utf8LengthIs(CRLF);
    }
  }

  lemma ShortText(s: string, most: nat)
    requires |s| <= most && AllHex(s)
    ensures Utf8Length(s) <= most
  {
    Utf8LengthIs(s);
    assert forall i :: 0 <= i < |s| ==> IsHex(s[i]);
  }

  lemma ShortDecimal(n: u64)
    ensures Utf8Length(Decimal(n)) <= 20
  {
    assert Power10(5) == 100_000 && Power10(10) == 100_000 * Power10(5);
    assert Power10(15) == 100_000 * Power10(10) && Power10(20) == 100_000 * Power10(15);
    DecimalLength(n, 20);
    assert AllDigits(Decimal(n));
    ShortText(Decimal(n), 20);
  }

  lemma ShortIdentity(identity: Option<FileIdentity>)
    ensures var t := IdentityTexts(identity);
      && Utf8Length(t.0) <= 64 && Utf8Length(t.1) <= 64 && Utf8Length(t.2) <= 64 && Utf8Length(t.3) <= 64
  {
    if identity.Some? {
      ShortDecimal(identity.value.expectation.length);
      ShortText(EncodeHex(identity.value.expectation.sha256), 64);
      ShortDecimal(identity.value.id.volume);
      ShortDecimal(identity.value.id.index);
    } else {
      Utf8LengthIs("-");
    }
  }

  lemma ShortRequest(j: Journal)
    requires ValidJournal(j)
    ensures Utf8Length(ModeText(j.mode)) <= 64 && Utf8Length(j.sessionId) <= 64
    ensures Utf8Length(j.stagedExtension) <= 64
  {
    Utf8LengthIs(ModeText(j.mode));
    ShortText(j.sessionId, 32);
    Utf8LengthIs(j.stagedExtension);
  }

  lemma ShortKeyed(key: string, value: string)
    requires |key| <= 16
    ensures Utf8Length(value) <= 64 ==> Short(key + value)
    ensures Utf8Length(key + value) <= 64 + Utf8Length(value)
  {
    Utf8LengthOfConcat(key, value);
    Utf8LengthIs(key);
  }

  lemma ShortHeader(j: Journal)
    requires ValidJournal(j)
    ensures var l := Lines(j);
      Short(l[0]) && Short(l[1]) && Short(l[2]) && Short(l[3]) && Short(l[5])
    ensures Utf8Length(Lines(j)[4]) <= 64 + Utf8Length(j.targetName)
  {
    LinesAreKeyed(j);
    ValuesAre(j);
    Utf8LengthIs("LRBPC1");
    Utf8LengthIs("State=PREPARED");
    ShortRequest(j);
    ShortKeyed("Mode=", ModeText(j.mode));
    ShortKeyed("SessionId=", j.sessionId);
    ShortKeyed("TargetName=", j.targetName);
    ShortKeyed("StagedExtension=", j.stagedExtension);
  }

  lemma ShortIdentityLines(j: Journal)
    ensures var l := Lines(j);
      && Short(l[6]) && Short(l[7]) && Short(l[8]) && Short(l[9])
      && Short(l[10]) && Short(l[11]) && Short(l[12]) && Short(l[13])
  {
    LinesAreKeyed(j);
    ValuesAre(j);
    var prior, next := IdentityTexts(j.oldFile), IdentityTexts(Some(j.newFile));
    ShortIdentity(j.oldFile);
    ShortIdentity(Some(j.newFile));
    ShortKeyed("OldLength=", prior.0);
    ShortKeyed("OldSha256=", prior.1);
    ShortKeyed("OldVolume=", prior.2);
    ShortKeyed("OldFileId=", prior.3);
    ShortKeyed("NewLength=", next.0);
    ShortKeyed("NewSha256=", next.1);
    ShortKeyed("NewVolume=", next.2);
    ShortKeyed("NewFileId=", next.3);
  }

  lemma AllShort(l: seq<string>)
    requires |l| == 15 && Short(l[0]) && Short(l[1]) && Short(l[2]) && Short(l[3]) && Short(l[5])
    requires Short(l[6]) && Short(l[7]) && Short(l[8]) && Short(l[9]) && Short(l[10]) && Short(l[11])
    requires Short(l[12]) && Short(l[13]) && Short(l[14])
    ensures forall i :: 0 <= i < |l| && i != 4 ==> Short(l[i])
  {
  }

  lemma ShortChecksum(digest: string -> Digest, body: string)
    ensures Short(ChecksumLine(digest, body))
  {
    Utf8LengthOfConcat(CHECKSUM_KEY, EncodeHex(digest(body)));
    Utf8LengthIs(CHECKSUM_KEY);
    ShortText(EncodeHex(digest(body)), 64);
  }

  /** The journal of a publication whose target name has at most 500 characters keeps the byte limit; a Windows
      name has at most 255. */
  lemma JournalFits(digest: string -> Digest, j: Journal)
    requires ValidJournal(j) && |j.targetName| <= 500
    ensures Utf8Length(Encode(digest, j)) <= 4096
  {
    var lines := AllLines(digest, j);
    EncodeIsAllLines(digest, j);
    ShortHeader(j);
    ShortIdentityLines(j);
    ShortChecksum(digest, Terminated(Lines(j)));
    assert lines[..14] == Lines(j);
    AllShort(lines);
    Utf8LengthIs(j.targetName);
    TerminatedLength(lines, 4);
  }

  // ---------------------------------------------------------------------------------------------
  // Encoding a parsed journal
  // ---------------------------------------------------------------------------------------------

  lemma IdentityIsCanonical(texts: (string, string, string, string))
    requires ParseIdentity(texts).Success?
    ensures ValidIdentity(ParseIdentity(texts).value)
    ensures IdentityTexts(Some(ParseIdentity(texts).value)) == texts
  {
    CanonicalU64IsDecimal(texts.0);
    EncodeOfDecodeHex(texts.1);
    CanonicalU64IsDecimal(texts.2);
    CanonicalU64IsDecimal(texts.3);
  }

  lemma OptionalIdentityIsCanonical(texts: (string, string, string, string))
    requires ParseOptionalIdentity(texts).Success?
    ensures IdentityTexts(ParseOptionalIdentity(texts).value) == texts
    ensures ParseOptionalIdentity(texts).value.Some? ==> ValidIdentity(ParseOptionalIdentity(texts).value.value)
  {
    if texts != ("-", "-", "-", "-") { IdentityIsCanonical(texts); }
  }

  lemma ParsedValuesAreValid(values: seq<string>)
    requires |values| == |KEYS| && ParseValues(values).Success?
    ensures ValidJournal(ParseValues(values).value)
  {
    OptionalIdentityIsCanonical((values[4], values[5], values[6], values[7]));
    IdentityIsCanonical((values[8], values[9], values[10], values[11]));
  }

  lemma ParsedFields(values: seq<string>)
    requires |values| == |KEYS| && ParseValues(values).Success?
    ensures var j := ParseValues(values).value;
            && ModeText(j.mode) == values[0]
            && j.sessionId == values[1] && j.targetName == values[2] && j.stagedExtension == values[3]
            && ParseOptionalIdentity((values[4], values[5], values[6], values[7])) == Success(j.oldFile)
            && ParseIdentity((values[8], values[9], values[10], values[11])) == Success(j.newFile)
  {
  }

  lemma ValuesOfFields(values: seq<string>, j: Journal)
    requires |values| == |KEYS|
    requires ModeText(j.mode) == values[0]
    requires j.sessionId == values[1] && j.targetName == values[2] && j.stagedExtension == values[3]
    requires ParseOptionalIdentity((values[4], values[5], values[6], values[7])) == Success(j.oldFile)
    requires ParseIdentity((values[8], values[9], values[10], values[11])) == Success(j.newFile)
    ensures Values(j) == values
  {
    OptionalIdentityIsCanonical((values[4], values[5], values[6], values[7]));
    IdentityIsCanonical((values[8], values[9], values[10], values[11]));
    assert IdentityTexts(j.oldFile) == (values[4], values[5], values[6], values[7]);
    assert IdentityTexts(Some(j.newFile)) == (values[8], values[9], values[10], values[11]);
  }

  lemma KeyedLinesOfLineValues(lines: seq<string>)
    requires LineValues(lines).Some?
    ensures KeyedLines(LineValues(lines).value) == lines
  {
    var values := LineValues(lines).value;
    forall i | 0 <= i < |KEYS| ensures lines[i + 2] == KEYS[i] + values[i] {
      assert StartsWith(lines[i + 2], KEYS[i]);
    }
  }

  lemma TextOfCheckedBody(digest: string -> Digest, text: string)
    requires CheckedBody(digest, text).Success?
    ensures var body := CheckedBody(digest, text).value; text == body + ChecksumLine(digest, body) + CRLF
  {
    EncodeOfDecodeHex(SplitChecksum(text).value.1);
  }

  /** Whatever the parser accepts is exactly the encoded form of the valid journal it returns. */
  lemma EncodeOfParse(digest: string -> Digest, text: string)
    requires Parse(digest, text).Success?
    ensures ValidJournal(Parse(digest, text).value)
    ensures Encode(digest, Parse(digest, text).value) == text
  {
    var body := CheckedBody(digest, text).value;
    TextOfCheckedBody(digest, text);
    var framed := StripSuffix(body, CRLF).value;
    TerminatedOfSplit(framed);
    var lines := SplitLines(framed);
    KeyedLinesOfLineValues(lines);
    var values := LineValues(lines).value;
    ParsedValuesAreValid(values);
    ParsedFields(values);
    ValuesOfFields(values, ParseValues(values).value);
  }

  /** The valid journals: a session of 32 lowercase hexadecimal digits, a component whose extension is "wim" or
      "esd" in any case, an old image unless the mode is create, and lengths and file ids other than zero. */
  lemma ValidJournalExactly(j: Journal)
    ensures ValidJournal(j) <==>
      && |j.sessionId| == 32 && (forall i :: 0 <= i < 32 ==> j.sessionId[i] in "0123456789abcdef")
      && ValidComponent(j.targetName)
      && (j.stagedExtension == "wim" || j.stagedExtension == "esd")
      && (exists base, extension ::
            EndsWithExtension(j.targetName, base, extension) && EqualButCase(extension, j.stagedExtension))
      && (if j.mode == Create then j.oldFile == None
          else j.oldFile.Some? && j.oldFile.value.expectation.length > 0 && j.oldFile.value.id.index > 0)
      && j.newFile.expectation.length > 0 && j.newFile.id.index > 0
  {
    forall i | 0 <= i < |j.sessionId| ensures IsHex(j.sessionId[i]) <==> j.sessionId[i] in "0123456789abcdef" {
      IsHexExactly(j.sessionId[i]);
    }
    ValidExtensionExactly(j.stagedExtension);
    MatchingExtensionExactly(j.targetName, j.stagedExtension);
  }

  /** The codec is a bijection between valid journals of bounded size and accepted texts. */
  lemma CodecIsBijection(digest: string -> Digest, text: string, j: Journal)
    ensures Parse(digest, text) == Success(j)
            <==> ValidJournal(j) && text == Encode(digest, j) && Utf8Length(text) <= 4096
  {
    if Parse(digest, text) == Success(j) {
      EncodeOfParse(digest, text);
    }
    if ValidJournal(j) && text == Encode(digest, j) && Utf8Length(text) <= JOURNAL_MAX_BYTES {
      ParseOfEncode(digest, j);
    }
  }

  // ---------------------------------------------------------------------------------------------
  // Interrupted journal writes
  // ---------------------------------------------------------------------------------------------

  lemma {:induction false} LineFeedCount(lines: seq<string>)
    requires OneLineEach(lines)
    ensures multiset(Terminated(lines))['\n'] == |lines|
  {
    if lines != [] {
      forall i | 0 <= i < |lines[1..]| ensures OneLine(lines[1..][i]) {
        assert lines[1..][i] == lines[i + 1];
      }
      LineFeedCount(lines[1..]);
      assert OneLine(lines[0]) && '\n' !in lines[0];
      assert multiset(CRLF)['\n'] == 1;
      assert Terminated(lines) == (lines[0] + CRLF) + Terminated(lines[1..]);
    }
  }

  lemma LineFeedsOfEncode(digest: string -> Digest, j: Journal)
    requires ValidJournal(j)
    ensures multiset(Encode(digest, j))['\n'] == 15
  {
    EncodeIsAllLines(digest, j);
    LineFeedCount(AllLines(digest, j));
  }

  lemma PrefixHasFewerLineFeeds(prefix: string, whole: string)
    requires prefix < whole && EndsWith(whole, CRLF)
    ensures multiset(prefix)['\n'] < multiset(whole)['\n']
  {
    var rest := whole[|prefix|..];
    assert whole == prefix + rest;
    assert rest[|rest| - 1] == whole[|whole| - 1] == whole[|whole| - 2..][1];
    assert '\n' in rest && '\n' in multiset(rest);
  }

  /** A journal whose writing was cut short is never mistaken for a complete journal. */
  lemma TornJournalIsRefused(digest: string -> Digest, j: Journal, torn: string)
    requires ValidJournal(j)
    requires torn < Encode(digest, j)
    ensures Parse(digest, torn).Failure?
  {
    LineFeedsOfEncode(digest, j);
    EncodeIsFramed(digest, j);
    PrefixHasFewerLineFeeds(torn, Encode(digest, j));
    if Parse(digest, torn).Success? {
      EncodeOfParse(digest, torn);
      LineFeedsOfEncode(digest, Parse(digest, torn).value);
      assert false;
    }
  }

  // ---------------------------------------------------------------------------------------------
  // The commit receipt: a directory name that describes the published object
  // ---------------------------------------------------------------------------------------------

  datatype Receipt = Receipt(mode: PublishMode, identity: FileIdentity)

  function ReceiptFields(r: Receipt): seq<string> {
    [ ModeText(r.mode),
      Decimal(r.identity.expectation.length),
      EncodeHex(r.identity.expectation.sha256),
      FixedHex(r.identity.id.volume, 8),
      FixedHex(r.identity.id.index, 16) ]
  }

  function ReceiptName(sessionId: string, r: Receipt): string {
    COMMITTED_PREFIX + sessionId + "-" + Separated(ReceiptFields(r), '-')
  }

  /** `Success(None)` is a session directory that carries no receipt. */
  function ParseReceipt(sessionId: string, name: string): Result<Option<Receipt>, JournalError> {
    var fields := StripPrefix(name, COMMITTED_PREFIX + sessionId + "-");
    if fields.None? then Success(None) else
    var parts := SplitAt(fields.value, '-');
    if |parts| != 5 then Failure(BadSchema) else
    var mode := ParseMode(parts[0]);
    var length := ParseCanonicalU64(parts[1]);
    var hash := DecodeHash(parts[2]);
    if mode.None? || length.None? || hash.None? then Failure(BadField) else
    if |parts[3]| != 8 || |parts[4]| != 16 || !AllHex(parts[3]) || !AllHex(parts[4]) then Failure(BadField) else
    Power16Widths();
    var id := FileId(HexNumber(parts[3]), HexNumber(parts[4]));
    Success(Some(Receipt(mode.value, FileIdentity(id, FileExpectation(length.value, hash.value)))))
  }

  lemma {:induction false} SplitOfSeparated(parts: seq<string>, c: char)
    requires parts != []
    requires forall i :: 0 <= i < |parts| ==> c !in parts[i]
    ensures SplitAt(Separated(parts, c), c) == parts
  {
    if |parts| == 1 {
      SplitFirst(parts[0], "", c);
    } else {
      SplitOfSeparated(parts[1..], c);
      SplitFirst(parts[0], Separated(parts[1..], c), c);
    }
  }

  /** No field of a receipt holds the separator. */
  lemma ReceiptFieldsAreSplit(r: Receipt)
    ensures SplitAt(Separated(ReceiptFields(r), '-'), '-') == ReceiptFields(r)
  {
    var fields := ReceiptFields(r);
    forall i | 0 <= i < |fields| ensures '-' !in fields[i] {
      if i == 1 { assert forall c :: c in fields[1] ==> IsDigit(c); }
      if i > 1 { assert forall c :: c in fields[i] ==> IsHex(c); }
    }
    SplitOfSeparated(fields, '-');
  }

  /** The receipt name decodes to the mode and identity it was built from. */
  lemma ReceiptRoundTrip(sessionId: string, r: Receipt)
    ensures ParseReceipt(sessionId, ReceiptName(sessionId, r)) == Success(Some(r))
  {
    var fields := ReceiptFields(r);
    var prefix := COMMITTED_PREFIX + sessionId + "-";
    assert (prefix + Separated(fields, '-'))[|prefix|..] == Separated(fields, '-');
    ReceiptFieldsAreSplit(r);
    ParseModeOfText(r.mode);
    DecimalRoundTrip(r.identity.expectation.length);
    DecodeOfEncodeHex(r.identity.expectation.sha256);
    Power16Widths();
    NumberOfFixedHex(r.identity.id.volume, 8);
    NumberOfFixedHex(r.identity.id.index, 16);
  }

  /** Every accepted receipt name is the name of exactly the receipt it decodes to. */
  lemma ReceiptIsCanonical(sessionId: string, name: string)
    requires var parsed := ParseReceipt(sessionId, name); parsed.Success? && parsed.value.Some?
    ensures ReceiptName(sessionId, ParseReceipt(sessionId, name).value.value) == name
  {
    var r := ParseReceipt(sessionId, name).value.value;
    var prefix := COMMITTED_PREFIX + sessionId + "-";
    var fields := StripPrefix(name, prefix).value;
    var parts := SplitAt(fields, '-');
    SeparatedOfSplit(fields, '-');
    CanonicalU64IsDecimal(parts[1]);
    EncodeOfDecodeHex(parts[2]);
    FixedHexOfNumber(parts[3]);
    FixedHexOfNumber(parts[4]);
    assert ReceiptFields(r) == parts;
  }

  /** The receipt name, written out; volume and file id are padded to eight and sixteen digits. */
  lemma ReceiptText(sessionId: string, r: Receipt)
    ensures var f := SplitAt(ReceiptName(sessionId, r)[|"LetRecovery-BackupCommitted-" + sessionId + "-"|..], '-');
      && ReceiptName(sessionId, r) == "LetRecovery-BackupCommitted-" + sessionId + "-" + Separated(f, '-')
      && |f| == 5
      && f[0] == (if r.mode == Create then "create" else if r.mode == Replace then "replace" else "append")
      && f[1] == Decimal(r.identity.expectation.length)
      && f[2] == EncodeHex(r.identity.expectation.sha256)
      && f[3] == FixedHex(r.identity.id.volume, 8)
      && f[4] == FixedHex(r.identity.id.index, 16)
  {
    ReceiptFieldsAreSplit(r);
    var prefix := COMMITTED_PREFIX + sessionId + "-";
    assert (prefix + Separated(ReceiptFields(r), '-'))[|prefix|..] == Separated(ReceiptFields(r), '-');
  }

  /** An uncommitted session directory never reads as a receipt. */
  lemma UncommittedNameHasNoReceipt(sessionId: string, suffix: string)
    ensures ParseReceipt(sessionId, "LetRecovery-BackupPublish-" + sessionId + "-" + suffix) == Success(None)
  {
    var name := "LetRecovery-BackupPublish-" + sessionId + "-" + suffix;
    var prefix := COMMITTED_PREFIX + sessionId + "-";
    assert name[18] == 'P' && prefix[18] == 'C';
    assert |prefix| <= |name| ==> name[..|prefix|][18] == name[18];
  }
}
