/** The FIX session configuration tool (fix_create_session.py): password
    encoding, validation of the six fields, the configuration text, the
    confirmation and file-name prompts, and the backup-then-append update
    of the configuration file. The terminal, the clock and the file system
    are parameters: the timestamps are passed in, and the files are a map
    from file name to contents. */
module FixCreateSession {
  import opened Wrappers
  import opened PyText
  import Utf8
  import Base64

  // ---------------------------------------------------------------------
  // encrypt_password

  /** `encrypt_password`: the Base64 text of the UTF-8 bytes of the
      password; when the password cannot be encoded (it holds a lone
      surrogate) the `except` branch returns it unchanged. The `.decode`
      of the Base64 bytes sits inside the same `try`. */
  function EncryptPassword(password: Str): Str {
    match Utf8.Encode(password)
    case None => password
    case Some(bytes) =>
      match Utf8.Decode(Base64.Encode(bytes))
      case Some(text) => text
      case None => password
  }

  lemma AlphabetIsAscii(c: int)
    requires Base64.InAlphabet(c)
    ensures c < 0x80
  {
  }

  /** Base64 output is ASCII, so decoding it as UTF-8 never fails. */
  lemma Base64IsAscii(b: seq<Byte>)
    ensures Utf8.IsAscii(Base64.Encode(b))
  {
    var r := Base64.Encode(b);
    Base64.EncodeAlphabetThenPad(b);
    forall i | 0 <= i < |r| ensures r[i] < 0x80 {
      if r[i] != Base64.PAD {
        AlphabetIsAscii(r[i]);
      }
    }
  }

  /** When the password encodes, the result is exactly the Base64 text of
      its UTF-8 bytes. */
  lemma EncryptPasswordEncodes(password: Str)
    requires Utf8.Encode(password).Some?
    ensures EncryptPassword(password) == Base64.Encode(Utf8.Encode(password).value)
  {
    var bytes := Utf8.Encode(password).value;
    Base64IsAscii(bytes);
    Utf8.DecodeAscii(Base64.Encode(bytes));
  }

  /** Length law: four characters for every started group of three UTF-8
      bytes, and only alphabet characters followed by at most two '='. */
  lemma EncryptPasswordShape(password: Str)
    requires Utf8.Encode(password).Some?
    ensures var n := |Utf8.Encode(password).value|;
            var r := EncryptPassword(password);
            |r| == 4 * ((n + 2) / 3) && Base64.PadCount(n) <= 2 &&
            Base64.AlphabetThenPad(r, Base64.PadCount(n))
  {
    var bytes := Utf8.Encode(password).value;
    EncryptPasswordEncodes(password);
    Base64.EncodeAlphabetThenPad(bytes);
  }

  /** Round trip: Base64-decoding the result gives the UTF-8 bytes of the
      password, and decoding those gives the password back. */
  lemma EncryptPasswordRoundTrip(password: Str)
    requires Utf8.Encode(password).Some?
    ensures Base64.Decode(EncryptPassword(password)) == Utf8.Encode(password)
    ensures Utf8.Decode(Utf8.Encode(password).value) == Some(password)
  {
    var bytes := Utf8.Encode(password).value;
    EncryptPasswordEncodes(password);
    Base64.DecodeOfEncode(bytes);
    Utf8.DecodeOfEncode(password);
  }

  /** Fallback: a password with a lone surrogate comes back unchanged. */
  lemma EncryptPasswordFallback(password: Str)
    ensures (exists i :: 0 <= i < |password| && Utf8.IsSurrogate(password[i])) ==>
              EncryptPassword(password) == password
  {
  }

  // ---------------------------------------------------------------------
  // get_user_input

  /** The six values `get_user_input` returns, in its order. */
  datatype SessionFields = SessionFields(
    senderCompId: Str, targetCompId: Str, port: Str,
    ip: Str, username: Str, password: Str)

  /** The two `ValueError`s of `get_user_input`. */
  datatype InputError = MissingField | InvalidPort

  function ErrorMessage(e: InputError): Str {
    match e
    case MissingField =>
      Lit("All fields (SenderCompID, TargetCompID, Port, IP, Username, Password) are required")
    case InvalidPort => Lit("Port must be a valid number")
  }

  /** Every answer with its surrounding whitespace stripped. */
  function StripFields(raw: SessionFields): SessionFields {
    SessionFields(Strip(raw.senderCompId), Strip(raw.targetCompId), Strip(raw.port),
                  Strip(raw.ip), Strip(raw.username), Strip(raw.password))
  }

  predicate AnyEmpty(f: SessionFields) {
    f.senderCompId == [] || f.targetCompId == [] || f.port == [] ||
    f.ip == [] || f.username == [] || f.password == []
  }

  /** Some answer is blank: empty or whitespace only. */
  predicate AnyBlank(raw: SessionFields) {
    AllSpace(raw.senderCompId) || AllSpace(raw.targetCompId) || AllSpace(raw.port) ||
    AllSpace(raw.ip) || AllSpace(raw.username) || AllSpace(raw.password)
  }

  /** Lines 26-48 once the six answers are read: strip them, reject an
      empty one, then a port `int()` refuses, and replace the password by
      its encoding. The port is kept as the stripped text. */
  function ValidateInput(raw: SessionFields): Result<SessionFields, InputError> {
    var f := StripFields(raw);
    if AnyEmpty(f) then Err(MissingField)
    else if !IsInt(f.port) then Err(InvalidPort)
    else Ok(f.(password := EncryptPassword(f.password)))
  }

  lemma StripFieldsEmpty(raw: SessionFields)
    ensures AnyEmpty(StripFields(raw)) <==> AnyBlank(raw)
  {
    StripEmpty(raw.senderCompId);
    StripEmpty(raw.targetCompId);
    StripEmpty(raw.port);
    StripEmpty(raw.ip);
    StripEmpty(raw.username);
    StripEmpty(raw.password);
  }

  /** The missing-field error comes first: it is the answer exactly when
      some field is blank, whatever the port says. */
  lemma ValidateMissingField(raw: SessionFields)
    ensures ValidateInput(raw) == Err(MissingField) <==> AnyBlank(raw)
  {
    StripFieldsEmpty(raw);
  }

  /** The port error: every field is filled in but the stripped port is
      not an integer. */
  lemma ValidateInvalidPort(raw: SessionFields)
    ensures ValidateInput(raw) == Err(InvalidPort) <==>
              !AnyBlank(raw) && !IsInt(Strip(raw.port))
  {
    StripFieldsEmpty(raw);
  }

  /** Acceptance: every field filled in and an integer port; then the
      fields come back stripped, the port as its text and with no range
      check, and the password encoded. */
  lemma ValidateAccepted(raw: SessionFields)
    ensures ValidateInput(raw).Ok? <==> !AnyBlank(raw) && IsInt(Strip(raw.port))
    ensures ValidateInput(raw).Ok? ==>
              var f := ValidateInput(raw).value;
              f.senderCompId == Strip(raw.senderCompId) && f.targetCompId == Strip(raw.targetCompId) &&
              f.port == Strip(raw.port) && f.ip == Strip(raw.ip) &&
              f.username == Strip(raw.username) &&
              f.password == EncryptPassword(Strip(raw.password)) &&
              f.senderCompId != [] && f.targetCompId != [] && f.ip != [] && f.username != [] &&
              ParseInt(f.port).Some?
  {
    StripFieldsEmpty(raw);
  }

  // ---------------------------------------------------------------------
  // create_fix_session_config

  datatype Setting = Setting(key: Str, value: Str)

  const EQUALS: CodePoint := '=' as int

  /** A setting written out in full in the source text. */
  function Fixed(key: string, value: string): Setting {
    Setting(Lit(key), Lit(value))
  }

  /** A setting whose value is an argument. */
  function Given(key: string, value: Str): Setting {
    Setting(Lit(key), value)
  }

  /** The `[SESSION]` settings of lines 56-73, in the order they are
      written. */
  function SessionSettings(f: SessionFields): (r: seq<Setting>)
    ensures |r| == 18
  {
    [ Fixed("BeginString", "FIX.4.4"),
      Given("SenderCompID", f.senderCompId),
      Given("TargetCompID", f.targetCompId),
      Fixed("SessionQualifier", ""),
      Fixed("DefaultApplVerID", "FIX50SP2"),
      Fixed("ConnectionType", "initiator"),
      Fixed("StartTime", "00:00:00"),
      Fixed("EndTime", "23:59:59"),
      Fixed("HeartBtInt", "30"),
      Given("SocketConnectPort", f.port),
      Given("SocketConnectHost", f.ip),
      Given("Username", f.username),
      Given("Password", f.password),
      Fixed("FileStorePath", "store"),
      Fixed("DataDictionary", "FIX44.xml"),
      Fixed("ResetOnLogon", "Y"),
      Fixed("ResetOnLogout", "Y"),
      Fixed("ResetOnDisconnect", "Y") ]
  }

  function SettingLine(s: Setting): Str {
    s.key + [EQUALS] + s.value
  }

  function SettingLines(ss: seq<Setting>): (r: seq<Str>)
    ensures |r| == |ss|
  {
    seq(|ss|, i requires 0 <= i < |ss| => SettingLine(ss[i]))
  }

  const ADDED: Str := Lit("# FIX Session Configuration - Added ")
  // The note is one line of the source, split into two literals: the solver
  // handles facts about a literal of this length poorly, about halves well.
  const NOTE: Str := Lit("# Note: Password is base64") + Lit(" encoded for basic protection")
  const SECTION: Str := Lit("[SESSION]")

  /** The lines of a session block: the empty line that opens the
      triple-quoted string, the two comments, the section header and the
      settings. */
  function BlockLines(timestamp: Str, ss: seq<Setting>): seq<Str> {
    [[], ADDED + timestamp, NOTE, SECTION] + SettingLines(ss)
  }

  /** `create_fix_session_config`, with the `strftime` text of
      `datetime.now()` as `timestamp`: every line followed by a line feed. */
  function CreateConfig(f: SessionFields, timestamp: Str): Str {
    Terminated(BlockLines(timestamp, SessionSettings(f)))
  }

  /** The keys of the `[SESSION]` section, in order, as an independent
      listing to compare the configuration against. */
  const SESSION_KEYS: seq<Str> := [
    Lit("BeginString"), Lit("SenderCompID"), Lit("TargetCompID"), Lit("SessionQualifier"),
    Lit("DefaultApplVerID"), Lit("ConnectionType"), Lit("StartTime"), Lit("EndTime"),
    Lit("HeartBtInt"), Lit("SocketConnectPort"), Lit("SocketConnectHost"), Lit("Username"),
    Lit("Password"), Lit("FileStorePath"), Lit("DataDictionary"), Lit("ResetOnLogon"),
    Lit("ResetOnLogout"), Lit("ResetOnDisconnect")]

  /** Positions of the six settings whose values come from the arguments. */
  const VARYING: set<nat> := {1, 2, 9, 10, 11, 12}

  function Keys(ss: seq<Setting>): (r: seq<Str>)
    ensures |r| == |ss|
  {
    seq(|ss|, i requires 0 <= i < |ss| => ss[i].key)
  }

  /** The key order is fixed, whatever the arguments. */
  lemma ConfigKeyOrder(f: SessionFields)
    ensures Keys(SessionSettings(f)) == SESSION_KEYS
  {
  }

  /** Only the six argument settings vary: every other setting is the same
      for all arguments. */
  lemma ConfigOnlySixVary(f: SessionFields, g: SessionFields)
    ensures forall i :: 0 <= i < 18 && i !in VARYING ==> SessionSettings(f)[i] == SessionSettings(g)[i]
  {
  }

  /** The six varying settings carry their arguments verbatim. */
  lemma ConfigValuesVerbatim(f: SessionFields)
    ensures var ss := SessionSettings(f);
            ss[1].value == f.senderCompId && ss[2].value == f.targetCompId &&
            ss[9].value == f.port && ss[10].value == f.ip &&
            ss[11].value == f.username && ss[12].value == f.password
  {
  }

  lemma {:induction false} TerminatedAppend(a: seq<Str>, b: seq<Str>)
    ensures Terminated(a + b) == Terminated(a) + Terminated(b)
    decreases |a|
  {
    if a != [] {
      assert (a + b)[1..] == a[1..] + b;
      TerminatedAppend(a[1..], b);
    } else {
      assert a + b == b;
    }
  }

  lemma TerminatedStarts(ls: seq<Str>)
    requires ls != []
    ensures var t := Terminated(ls);
            var head := ls[0] + [NEWLINE];
            |head| <= |t| && t[..|head|] == head && t[|head|..] == Terminated(ls[1..])
  {
  }

  /** Lines that open with an empty one: the text starts with two line
      feeds around the second line. */
  lemma TerminatedStartsBlank(ls: seq<Str>)
    requires |ls| >= 2 && ls[0] == []
    ensures var t := Terminated(ls);
            var head := [NEWLINE] + ls[1] + [NEWLINE];
            |head| <= |t| && t[..|head|] == head
  {
    TerminatedStarts(ls);
    TerminatedStarts(ls[1..]);
    var rest := Terminated(ls[1..]);
    assert Terminated(ls) == [NEWLINE] + rest;
  }

  lemma TerminatedEnds(ls: seq<Str>)
    requires ls != []
    ensures var t := Terminated(ls);
            var tail := ls[|ls| - 1] + [NEWLINE];
            |tail| <= |t| && t[|t| - |tail|..] == tail
  {
    var init, last := ls[..|ls| - 1], [ls[|ls| - 1]];
    assert ls == init + last;
    TerminatedAppend(init, last);
    assert Terminated(last) == ls[|ls| - 1] + [NEWLINE] + [];
  }

  /** A session block starts with an empty line and the header line that
      carries the timestamp. */
  lemma BlockStarts(timestamp: Str, ss: seq<Setting>)
    ensures var text := Terminated(BlockLines(timestamp, ss));
            var head := [NEWLINE] + ADDED + timestamp + [NEWLINE];
            |head| <= |text| && text[..|head|] == head
  {
    var lines := BlockLines(timestamp, ss);
    TerminatedStartsBlank(lines);
    assert lines[1] == ADDED + timestamp;
  }

  /** A session block ends with its last setting's line. */
  lemma BlockEnds(timestamp: Str, ss: seq<Setting>)
    requires ss != []
    ensures var text := Terminated(BlockLines(timestamp, ss));
            var tail := SettingLine(ss[|ss| - 1]) + [NEWLINE];
            |tail| <= |text| && text[|text| - |tail|..] == tail
  {
    var lines := BlockLines(timestamp, ss);
    TerminatedEnds(lines);
    assert lines[|lines| - 1] == SettingLine(ss[|ss| - 1]);
  }

  /** The text starts with a line feed, the comment that carries the
      timestamp and a line feed, and ends with "ResetOnDisconnect=Y" and a
      line feed. */
  lemma ConfigStartsAndEnds(f: SessionFields, timestamp: Str)
    ensures var text := CreateConfig(f, timestamp);
            var head := [NEWLINE] + ADDED + timestamp + [NEWLINE];
            var tail := Lit("ResetOnDisconnect") + [EQUALS] + Lit("Y") + [NEWLINE];
            |head| <= |text| && text[..|head|] == head &&
            |tail| <= |text| && text[|text| - |tail|..] == tail
  {
    BlockStarts(timestamp, SessionSettings(f));
    BlockEnds(timestamp, SessionSettings(f));
  }

  // A reader for the configuration text, to state what the text holds.

  /** A `key=value` line, split at its first '='. */
  function ReadSetting(line: Str): Option<Setting> {
    var k := SpanBefore(line, EQUALS);
    if k == |line| then None else Some(Setting(line[..k], line[k + 1..]))
  }

  function ReadSettings(lines: seq<Str>): (r: Option<seq<Setting>>)
    ensures r.Some? ==> |r.value| == |lines|
  {
    if lines == [] then Some([])
    else
      match (ReadSetting(lines[0]), ReadSettings(lines[1..]))
      case (Some(s), Some(rest)) => Some([s] + rest)
      case _ => None
  }

  datatype ConfigRecord = ConfigRecord(timestamp: Str, settings: seq<Setting>)

  /** Read a session block back: an empty line, the timestamp comment, the
      note, the section header, then one setting per line. */
  function ReadConfig(text: Str): Option<ConfigRecord> {
    var lines := SplitLines(text);
    if |lines| >= 4 && lines[0] == [] && |ADDED| <= |lines[1]| && lines[1][..|ADDED|] == ADDED &&
       lines[2] == NOTE && lines[3] == SECTION
    then
      match ReadSettings(lines[4..])
      case Some(ss) => Some(ConfigRecord(lines[1][|ADDED|..], ss))
      case None => None
    else None
  }

  /** A setting that reads back from its line: its key holds no '=' and
      no line feed, and its value holds no line feed. */
  predicate Writable(s: Setting) {
    EQUALS !in s.key && NEWLINE !in s.key && NEWLINE !in s.value
  }

  lemma ReadSettingOfLine(s: Setting)
    requires EQUALS !in s.key
    ensures ReadSetting(SettingLine(s)) == Some(s)
  {
    var line := SettingLine(s);
    SpanBeforeOf(s.key, EQUALS, s.value);
    assert line[..|s.key|] == s.key;
    assert line[|s.key| + 1..] == s.value;
  }

  lemma {:induction false} ReadSettingsOfLines(ss: seq<Setting>)
    requires forall i :: 0 <= i < |ss| ==> Writable(ss[i])
    ensures ReadSettings(SettingLines(ss)) == Some(ss)
    decreases |ss|
  {
    if ss != [] {
      var lines := SettingLines(ss);
      assert lines[0] == SettingLine(ss[0]);
      assert lines[1..] == SettingLines(ss[1..]);
      ReadSettingOfLine(ss[0]);
      ReadSettingsOfLines(ss[1..]);
      assert ss == [ss[0]] + ss[1..];
    }
  }

  /** No line of a block spans a line break, so splitting its text gives
      the lines back. */
  lemma BlockSplitsBack(timestamp: Str, ss: seq<Setting>)
    requires NEWLINE !in timestamp
    requires forall i :: 0 <= i < |ss| ==> Writable(ss[i])
    ensures SplitLines(Terminated(BlockLines(timestamp, ss))) == BlockLines(timestamp, ss)
  {
    var lines := BlockLines(timestamp, ss);
    AddedSingleLine(timestamp);
    NoteSingleLine();
    SectionSingleLine();
    forall i | 4 <= i < |lines| ensures NEWLINE !in lines[i] {
      assert lines[i] == ss[i - 4].key + [EQUALS] + ss[i - 4].value;
    }
    SplitLinesOfTerminated(lines);
  }

  /** Round trip for any block: reading it back gives the timestamp and
      the settings, provided none of them spans a line break. */
  lemma BlockReadsBack(timestamp: Str, ss: seq<Setting>)
    requires NEWLINE !in timestamp
    requires forall i :: 0 <= i < |ss| ==> Writable(ss[i])
    ensures ReadConfig(Terminated(BlockLines(timestamp, ss))) == Some(ConfigRecord(timestamp, ss))
  {
    var lines := BlockLines(timestamp, ss);
    BlockSplitsBack(timestamp, ss);
    ReadSettingsOfLines(ss);
    assert lines[4..] == SettingLines(ss);
    assert (ADDED + timestamp)[..|ADDED|] == ADDED;
    assert (ADDED + timestamp)[|ADDED|..] == timestamp;
  }

  lemma AddedSingleLine(timestamp: Str)
    requires NEWLINE !in timestamp
    ensures NEWLINE !in ADDED + timestamp
  {
    LitExcludes("# FIX Session Configuration - Added ", '\n');
  }

  lemma NoteSingleLine()
    ensures NEWLINE !in NOTE
  {
    LitExcludes("# Note: Password is base64", '\n');
    LitExcludes(" encoded for basic protection", '\n');
  }

  lemma SectionSingleLine()
    ensures NEWLINE !in SECTION
  {
    LitExcludes("[SESSION]", '\n');
  }

  /** No value of the fields holds a line feed. */
  predicate SingleLine(f: SessionFields) {
    NEWLINE !in f.senderCompId && NEWLINE !in f.targetCompId && NEWLINE !in f.port &&
    NEWLINE !in f.ip && NEWLINE !in f.username && NEWLINE !in f.password
  }

  lemma FixedWritable(key: string, value: string)
    requires '=' !in key && '\n' !in key && '\n' !in value
    ensures Writable(Fixed(key, value))
  {
    LitExcludes(key, '=');
    LitExcludes(key, '\n');
    LitExcludes(value, '\n');
  }

  lemma GivenWritable(key: string, value: Str)
    requires '=' !in key && '\n' !in key && NEWLINE !in value
    ensures Writable(Given(key, value))
  {
    LitExcludes(key, '=');
    LitExcludes(key, '\n');
  }

  // One lemma per setting: facts about several string literals at once
  // are expensive for the solver, one literal at a time they are cheap.

  lemma BeginStringWritable()
    ensures Writable(Fixed("BeginString", "FIX.4.4"))
  {
    FixedWritable("BeginString", "FIX.4.4");
  }

  lemma SessionQualifierWritable()
    ensures Writable(Fixed("SessionQualifier", ""))
  {
    FixedWritable("SessionQualifier", "");
  }

  lemma DefaultApplVerIDWritable()
    ensures Writable(Fixed("DefaultApplVerID", "FIX50SP2"))
  {
    FixedWritable("DefaultApplVerID", "FIX50SP2");
  }

  lemma ConnectionTypeWritable()
    ensures Writable(Fixed("ConnectionType", "initiator"))
  {
    FixedWritable("ConnectionType", "initiator");
  }

  lemma StartTimeWritable()
    ensures Writable(Fixed("StartTime", "00:00:00"))
  {
    FixedWritable("StartTime", "00:00:00");
  }

  lemma EndTimeWritable()
    ensures Writable(Fixed("EndTime", "23:59:59"))
  {
    FixedWritable("EndTime", "23:59:59");
  }

  lemma HeartBtIntWritable()
    ensures Writable(Fixed("HeartBtInt", "30"))
  {
    FixedWritable("HeartBtInt", "30");
  }

  lemma FileStorePathWritable()
    ensures Writable(Fixed("FileStorePath", "store"))
  {
    FixedWritable("FileStorePath", "store");
  }

  lemma DataDictionaryWritable()
    ensures Writable(Fixed("DataDictionary", "FIX44.xml"))
  {
    FixedWritable("DataDictionary", "FIX44.xml");
  }

  lemma ResetOnLogonWritable()
    ensures Writable(Fixed("ResetOnLogon", "Y"))
  {
    FixedWritable("ResetOnLogon", "Y");
  }

  lemma ResetOnLogoutWritable()
    ensures Writable(Fixed("ResetOnLogout", "Y"))
  {
    FixedWritable("ResetOnLogout", "Y");
  }

  lemma ResetOnDisconnectWritable()
    ensures Writable(Fixed("ResetOnDisconnect", "Y"))
  {
    FixedWritable("ResetOnDisconnect", "Y");
  }

  lemma SenderCompIDWritable(value: Str)
    requires NEWLINE !in value
    ensures Writable(Given("SenderCompID", value))
  {
    GivenWritable("SenderCompID", value);
  }

  lemma TargetCompIDWritable(value: Str)
    requires NEWLINE !in value
    ensures Writable(Given("TargetCompID", value))
  {
    GivenWritable("TargetCompID", value);
  }

  lemma SocketConnectPortWritable(value: Str)
    requires NEWLINE !in value
    ensures Writable(Given("SocketConnectPort", value))
  {
    GivenWritable("SocketConnectPort", value);
  }

  lemma SocketConnectHostWritable(value: Str)
    requires NEWLINE !in value
    ensures Writable(Given("SocketConnectHost", value))
  {
    GivenWritable("SocketConnectHost", value);
  }

  lemma UsernameWritable(value: Str)
    requires NEWLINE !in value
    ensures Writable(Given("Username", value))
  {
    GivenWritable("Username", value);
  }

  lemma PasswordWritable(value: Str)
    requires NEWLINE !in value
    ensures Writable(Given("Password", value))
  {
    GivenWritable("Password", value);
  }

  lemma SessionSettingsWritable(f: SessionFields)
    requires SingleLine(f)
    ensures forall i :: 0 <= i < 18 ==> Writable(SessionSettings(f)[i])
  {
    BeginStringWritable();
    SessionQualifierWritable();
    DefaultApplVerIDWritable();
    ConnectionTypeWritable();
    StartTimeWritable();
    EndTimeWritable();
    HeartBtIntWritable();
    FileStorePathWritable();
    DataDictionaryWritable();
    ResetOnLogonWritable();
    ResetOnLogoutWritable();
    ResetOnDisconnectWritable();
    SenderCompIDWritable(f.senderCompId);
    TargetCompIDWritable(f.targetCompId);
    SocketConnectPortWritable(f.port);
    SocketConnectHostWritable(f.ip);
    UsernameWritable(f.username);
    PasswordWritable(f.password);
  }

  /** Round trip: reading the configuration back gives the timestamp and
      the settings, in order, with the values verbatim, provided neither a
      value nor the timestamp holds a line feed. */
  lemma ConfigReadsBack(f: SessionFields, timestamp: Str)
    requires SingleLine(f) && NEWLINE !in timestamp
    ensures ReadConfig(CreateConfig(f, timestamp)) == Some(ConfigRecord(timestamp, SessionSettings(f)))
  {
    SessionSettingsWritable(f);
    BlockReadsBack(timestamp, SessionSettings(f));
  }

  /** The password value sits in the text as one contiguous piece. */
  lemma ConfigSplitsAtPassword(f: SessionFields, timestamp: Str) returns (before: Str, after: Str)
    ensures CreateConfig(f, timestamp) == before + f.password + after
  {
    var ss := SessionSettings(f);
    var lines := BlockLines(timestamp, ss);
    assert lines == lines[..16] + lines[16..];
    TerminatedAppend(lines[..16], lines[16..]);
    assert lines[16] == Lit("Password") + [EQUALS] + f.password;
    TerminatedStarts(lines[16..]);
    before := Terminated(lines[..16]) + Lit("Password") + [EQUALS];
    after := [NEWLINE] + Terminated(lines[17..]);
    assert lines[16..][1..] == lines[17..];
  }

  /** The text holds the password, so a password the UTF-8 encoder refuses
      makes the whole text one it refuses. */
  lemma ConfigRefusedWithPassword(f: SessionFields, timestamp: Str)
    requires !Encodable(f.password)
    ensures !Encodable(CreateConfig(f, timestamp))
  {
    var before, after := ConfigSplitsAtPassword(f, timestamp);
    Utf8.EncodeRefusesPiece(before, f.password, after);
  }

  /** The one input the fallback of `encrypt_password` exists for ends in
      a failed write: a stripped password holding a lone surrogate passes
      validation unchanged, and then the configuration cannot be written. */
  lemma SurrogatePasswordNotWritten(raw: SessionFields, timestamp: Str)
    requires ValidateInput(raw).Ok?
    requires exists i :: 0 <= i < |Strip(raw.password)| && Utf8.IsSurrogate(Strip(raw.password)[i])
    ensures ValidateInput(raw).value.password == Strip(raw.password)
    ensures !Encodable(CreateConfig(ValidateInput(raw).value, timestamp))
  {
    var p := Strip(raw.password);
    var f := ValidateInput(raw).value;
    ValidateAccepted(raw);
    EncryptPasswordFallback(p);
    assert f.password == p;
    assert !Encodable(p);
    ConfigRefusedWithPassword(f, timestamp);
  }

  // ---------------------------------------------------------------------
  // display_preview and main's file-name prompt

  /** Line 107-108: the stripped, lower-cased answer is "y" or "yes". */
  predicate Confirm(answer: Str) {
    Lower(Strip(answer)) in [Lit("y"), Lit("yes")]
  }

  lemma LowerIsY(t: Str)
    ensures Lower(t) == Lit("y") <==> |t| == 1 && (t[0] == 'y' as int || t[0] == 'Y' as int)
  {
    var w := Lit("y");
    assert w == ['y' as int];
    LowerMatches(t, w);
  }

  lemma LowerIsYes(t: Str)
    ensures Lower(t) == Lit("yes") <==>
              |t| == 3 && (t[0] == 'y' as int || t[0] == 'Y' as int) &&
              (t[1] == 'e' as int || t[1] == 'E' as int) &&
              (t[2] == 's' as int || t[2] == 'S' as int)
  {
    var w := Lit("yes");
    assert w == ['y' as int, 'e' as int, 's' as int];
    LowerMatches(t, w);
  }

  /** The accepted answers, spelled out: "y" or "yes" in any mix of cases,
      with any whitespace around them. */
  lemma ConfirmSpelling(answer: Str)
    ensures var t := Strip(answer);
            Confirm(answer) <==>
              (|t| == 1 && (t[0] == 'y' as int || t[0] == 'Y' as int)) ||
              (|t| == 3 && (t[0] == 'y' as int || t[0] == 'Y' as int) &&
                           (t[1] == 'e' as int || t[1] == 'E' as int) &&
                           (t[2] == 's' as int || t[2] == 'S' as int))
  {
    LowerIsY(Strip(answer));
    LowerIsYes(Strip(answer));
  }

  /** Whitespace typed around the answer does not change it. */
  lemma ConfirmIgnoresBlanks(a: Str, answer: Str, b: Str)
    requires AllSpace(a) && AllSpace(b)
    ensures Confirm(a + answer + b) == Confirm(answer)
  {
    StripSurrounded(a, answer, b);
  }

  const DEFAULT_FILENAME: Str := Lit("fix_sessions.cfg")

  /** Lines 122-124: the stripped answer, or "fix_sessions.cfg" when it is
      empty. */
  function ChooseFilename(input: Str): Str {
    var name := Strip(input);
    if name == [] then DEFAULT_FILENAME else name
  }

  /** A blank answer gives the default; any other gives the stripped
      answer. The name is never empty. */
  lemma ChooseFilenameRule(input: Str)
    ensures AllSpace(input) ==> ChooseFilename(input) == DEFAULT_FILENAME
    ensures !AllSpace(input) ==> ChooseFilename(input) == Strip(input)
    ensures ChooseFilename(input) != []
  {
    StripEmpty(input);
  }

  // ---------------------------------------------------------------------
  // add_to_file

  /** The backup name of line 82, with the `strftime` text as `stamp`. */
  function BackupName(filename: Str, stamp: Str): Str {
    filename + Lit(".backup_") + stamp
  }

  lemma BackupNameDiffers(filename: Str, stamp: Str)
    ensures BackupName(filename, stamp) != filename
  {
    assert |BackupName(filename, stamp)| > |filename|;
  }

  /** The files after `add_to_file`: an existing file is first copied to
      its backup name, then the configuration is appended to the file,
      which is created when absent. */
  function AfterAdd(files: map<Str, Str>, config: Str, filename: Str, stamp: Str): map<Str, Str> {
    var withBackup := if filename in files then files[BackupName(filename, stamp) := files[filename]] else files;
    var current := if filename in files then files[filename] else [];
    withBackup[filename := current + config]
  }

  /** Appending never overwrites: the file holds its old contents (or
      nothing, when absent) followed by the configuration. */
  lemma AfterAddAppends(files: map<Str, Str>, config: Str, filename: Str, stamp: Str)
    ensures var after := AfterAdd(files, config, filename, stamp);
            filename in after &&
            after[filename] == (if filename in files then files[filename] else []) + config
  {
  }

  /** An existing file leaves a backup holding its old contents. */
  lemma AfterAddBackup(files: map<Str, Str>, config: Str, filename: Str, stamp: Str)
    requires filename in files
    ensures var after := AfterAdd(files, config, filename, stamp);
            BackupName(filename, stamp) in after &&
            after[BackupName(filename, stamp)] == files[filename]
  {
    BackupNameDiffers(filename, stamp);
  }

  /** No other file changes, and no file disappears. */
  lemma AfterAddFrame(files: map<Str, Str>, config: Str, filename: Str, stamp: Str)
    ensures var after := AfterAdd(files, config, filename, stamp);
            files.Keys <= after.Keys &&
            (filename in files ==> after.Keys == files.Keys + {BackupName(filename, stamp)}) &&
            (filename !in files ==> after.Keys == files.Keys + {filename}) &&
            forall name :: name in files && name != filename &&
                           (filename in files ==> name != BackupName(filename, stamp))
                           ==> after[name] == files[name]
  {
  }

  /** Whether `f.write` in text mode can encode `text`: the locale
      encoding, taken to be UTF-8 with strict errors, refuses a lone
      surrogate with `UnicodeEncodeError`. */
  predicate Encodable(text: Str) {
    Utf8.Encode(text).Some?
  }

  /** The files after an `add_to_file` whose write raises: the backup has
      already been made, and `open(filename, 'a')` has already created the
      file when it was absent, but nothing is appended. */
  function AfterFailedAdd(files: map<Str, Str>, filename: Str, stamp: Str): map<Str, Str> {
    var withBackup := if filename in files then files[BackupName(filename, stamp) := files[filename]] else files;
    var current := if filename in files then files[filename] else [];
    withBackup[filename := current]
  }

  /** A failed write keeps the backup, leaves the file's contents as they
      were (an absent file now exists and is empty) and changes nothing
      else. */
  lemma AfterFailedAddKeeps(files: map<Str, Str>, filename: Str, stamp: Str)
    ensures var after := AfterFailedAdd(files, filename, stamp);
            filename in after &&
            after[filename] == (if filename in files then files[filename] else []) &&
            (filename in files ==> BackupName(filename, stamp) in after &&
                                   after[BackupName(filename, stamp)] == files[filename]) &&
            forall name :: name in files && name != filename &&
                           (filename in files ==> name != BackupName(filename, stamp))
                           ==> name in after && after[name] == files[name]
  {
    BackupNameDiffers(filename, stamp);
  }

  /** Two sessions added one after the other both end up in the file, in
      the order they were added. */
  lemma AfterAddTwice(files: map<Str, Str>, c1: Str, c2: Str, filename: Str, s1: Str, s2: Str)
    ensures var after := AfterAdd(AfterAdd(files, c1, filename, s1), c2, filename, s2);
            after[filename] == (if filename in files then files[filename] else []) + c1 + c2
  {
    AfterAddAppends(files, c1, filename, s1);
    AfterAddAppends(AfterAdd(files, c1, filename, s1), c2, filename, s2);
  }

  /** The configuration files, by name. */
  class FileStore {
    var files: map<Str, Str>

    constructor(initial: map<Str, Str>)
      ensures files == initial
    {
      files := initial;
    }

    /** `add_to_file`: back up an existing file, open it for appending,
        then write the configuration; `ok` is the function's result, False
        when the write cannot encode the text. */
    method AddToFile(config: Str, filename: Str, stamp: Str) returns (ok: bool)
      modifies this
      ensures ok == Encodable(config)
      ensures ok ==> files == AfterAdd(old(files), config, filename, stamp)
      ensures !ok ==> files == AfterFailedAdd(old(files), filename, stamp)
    {
      var current: Str := [];
      if filename in files {
        current := files[filename];
        files := files[BackupName(filename, stamp) := current];
      }
      files := files[filename := current];
      if Encodable(config) {
        files := files[filename := current + config];
        ok := true;
      } else {
        ok := false;
      }
    }
  }

  /** How a run of `main` ends; a rejection carries the text of the
      `ValueError` that `main` prints after "Input error: ". */
  datatype Outcome =
    | InputRejected(error: InputError, message: Str)
    | Cancelled
    | Added(filename: Str)
    | AddFailed(filename: Str)

  /** `main` with the console answers and the two timestamps as
      parameters: validate, build the text, ask, choose the file, add. */
  method RunSession(store: FileStore, raw: SessionFields, timestamp: Str, answer: Str,
                    filenameInput: Str, stamp: Str) returns (outcome: Outcome)
    modifies store
    ensures ValidateInput(raw).Err? ==>
              outcome == InputRejected(ValidateInput(raw).error, ErrorMessage(ValidateInput(raw).error)) &&
              store.files == old(store.files)
    ensures ValidateInput(raw).Ok? && !Confirm(answer) ==>
              outcome == Cancelled && store.files == old(store.files)
    ensures ValidateInput(raw).Ok? && Confirm(answer) &&
            Encodable(CreateConfig(ValidateInput(raw).value, timestamp)) ==>
              outcome == Added(ChooseFilename(filenameInput)) &&
              store.files == AfterAdd(old(store.files), CreateConfig(ValidateInput(raw).value, timestamp),
                                      ChooseFilename(filenameInput), stamp)
    ensures ValidateInput(raw).Ok? && Confirm(answer) &&
            !Encodable(CreateConfig(ValidateInput(raw).value, timestamp)) ==>
              outcome == AddFailed(ChooseFilename(filenameInput)) &&
              store.files == AfterFailedAdd(old(store.files), ChooseFilename(filenameInput), stamp)
  {
    var validated := ValidateInput(raw);
    if validated.Err? {
      return InputRejected(validated.error, ErrorMessage(validated.error));
    }
    var config := CreateConfig(validated.value, timestamp);
    if !Confirm(answer) {
      return Cancelled;
    }
    var filename := Strip(filenameInput);
    if filename == [] {
      filename := DEFAULT_FILENAME;
    }
    var ok := store.AddToFile(config, filename, stamp);
    outcome := if ok then Added(filename) else AddFailed(filename);
  }
}
