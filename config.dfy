/**
 * Start-up configuration (Config.validate) and the key=value line lookup of the
 * internal utility get_config_value_6708. Reading the environment and the file,
 * and parsing the integer settings, are outside the model: the values are inputs.
 */
module Configuration {
  import opened Wrappers
  import opened Address

  /** The four settings validate insists on, in the order it checks them. */
  datatype Setting = SourceChainRpc | DestinationChainRpc | BridgeContractAddress | PrivateKey
  {
    /** The environment variable's name, used in the error message. */
    function Name(): string
    {
      match this
      case SourceChainRpc => "SOURCE_CHAIN_RPC"
      case DestinationChainRpc => "DESTINATION_CHAIN_RPC"
      case BridgeContractAddress => "BRIDGE_CONTRACT_ADDRESS"
      case PrivateKey => "PRIVATE_KEY"
    }
  }

  const RequiredSettings: seq<Setting> :=
    [SourceChainRpc, DestinationChainRpc, BridgeContractAddress, PrivateKey]

  /** The ValueError validate raises: a missing variable, or a contract address
      that to_checksum_address rejects. */
  datatype ConfigError = MissingVariable(name: string) | InvalidAddress(text: string)

  /** Python falsiness of an os.getenv result: unset or empty. */
  predicate Falsy(v: Option<string>)
    ensures Falsy(v) <==> v == None || v == Some("")
  {
    v.None? || v.value == ""
  }

  /** The index of the first falsy value, or |vals| when there is none. */
  function FirstFalsy(vals: seq<Option<string>>): (k: nat)
    ensures k <= |vals|
    ensures k < |vals| ==> vals[k] == None || vals[k] == Some("")
    ensures forall j :: 0 <= j < k ==> vals[j].Some? && vals[j].value != ""
  {
    if |vals| == 0 then 0
    else if Falsy(vals[0]) then 0
    else 1 + FirstFalsy(vals[1..])
  }

  class Config {
    var sourceChainRpc: Option<string>
    var destinationChainRpc: Option<string>
    var bridgeContractAddress: Option<string>
    var privateKey: Option<string>
    var pollIntervalSeconds: int
    var confirmationsRequired: int

    constructor(
      sourceChainRpc: Option<string>, destinationChainRpc: Option<string>,
      bridgeContractAddress: Option<string>, privateKey: Option<string>,
      pollIntervalSeconds: int, confirmationsRequired: int)
      ensures this.sourceChainRpc == sourceChainRpc
      ensures this.destinationChainRpc == destinationChainRpc
      ensures this.bridgeContractAddress == bridgeContractAddress
      ensures this.privateKey == privateKey
      ensures this.pollIntervalSeconds == pollIntervalSeconds
      ensures this.confirmationsRequired == confirmationsRequired
    {
      this.sourceChainRpc := sourceChainRpc;
      this.destinationChainRpc := destinationChainRpc;
      this.bridgeContractAddress := bridgeContractAddress;
      this.privateKey := privateKey;
      this.pollIntervalSeconds := pollIntervalSeconds;
      this.confirmationsRequired := confirmationsRequired;
    }

    /** getattr(self, name): the attribute whose name is the setting's variable name. */
    function Get(s: Setting): (v: Option<string>)
      reads this
      ensures s.Name() == "SOURCE_CHAIN_RPC" ==> v == sourceChainRpc
      ensures s.Name() == "DESTINATION_CHAIN_RPC" ==> v == destinationChainRpc
      ensures s.Name() == "BRIDGE_CONTRACT_ADDRESS" ==> v == bridgeContractAddress
      ensures s.Name() == "PRIVATE_KEY" ==> v == privateKey
    {
      match s
      case SourceChainRpc => sourceChainRpc
      case DestinationChainRpc => destinationChainRpc
      case BridgeContractAddress => bridgeContractAddress
      case PrivateKey => privateKey
    }

    /** The required values in checking order. */
    function RequiredValues(): (vals: seq<Option<string>>)
      reads this
      ensures |vals| == |RequiredSettings|
      ensures forall i :: 0 <= i < |vals| ==> vals[i] == Get(RequiredSettings[i])
    {
      [sourceChainRpc, destinationChainRpc, bridgeContractAddress, privateKey]
    }

    /** Fails naming the first required setting, in checking order, that is
        unset or empty; otherwise replaces the contract address by its canonical
        form, failing if it is not an address. Nothing else changes. */
    method Validate() returns (r: Outcome<ConfigError>)
      modifies this`bridgeContractAddress
      ensures var k := FirstFalsy(old(RequiredValues()));
        if k < |RequiredSettings| then
          r == Fail(MissingVariable(RequiredSettings[k].Name())) &&
          bridgeContractAddress == old(bridgeContractAddress)
        else
          old(bridgeContractAddress).Some? &&
          match ParseAddress(old(bridgeContractAddress).value)
          case None =>
            r == Fail(InvalidAddress(old(bridgeContractAddress).value)) &&
            bridgeContractAddress == old(bridgeContractAddress)
          case Some(a) =>
            r == Pass && bridgeContractAddress == Some(ChecksumAddress(a))
    {
      ghost var vals := RequiredValues();
      var i := 0;
      while i < |RequiredSettings|
        invariant 0 <= i <= |RequiredSettings|
        invariant forall j :: 0 <= j < i ==> !Falsy(vals[j])
      {
        var setting := RequiredSettings[i];
        if Falsy(Get(setting)) {
          return Fail(MissingVariable(setting.Name()));
        }
        i := i + 1;
      }
      assert !Falsy(vals[2]);
      var text := bridgeContractAddress.value;
      match ParseAddress(text) {
        case None =>
          r := Fail(InvalidAddress(text));
        case Some(a) =>
          bridgeContractAddress := Some(ChecksumAddress(a));
          r := Pass;
      }
    }
  }

  /** A contract address that validate has normalised passes validation again
      and stays as it is: normalisation is idempotent. */
  lemma ValidatedAddressIsStable(text: string)
    requires ParseAddress(text).Some?
    ensures var normal := ChecksumAddress(ParseAddress(text).value);
      ParseAddress(normal).Some? && ChecksumAddress(ParseAddress(normal).value) == normal
  {
    ParseChecksumAddress(ParseAddress(text).value);
  }

  /** The IndexError raised on a matching line that has no '='. */
  datatype LookupError = NoSeparator(line: string)

  /** Whether the line starts with the key (str.startswith): the line is the key
      followed by some rest. */
  predicate StartsWith(line: string, key: string)
    ensures StartsWith(line, key) <==> exists rest :: line == key + rest
  {
    if |key| <= |line| && line[..|key|] == key then
      assert line == key + line[|key|..];
      true
    else
      false
  }

  /** The characters str.isspace() holds for, which str.strip() removes at
      either end: tab to carriage return, U+001C to U+001F, space, U+0085,
      no-break space, and the Unicode space separators. */
  predicate IsSpace(c: char)
  {
    || '\t' <= c <= '\r'
    || '\U{1C}' <= c <= '\U{1F}'
    || c == ' ' || c == '\U{85}' || c == '\U{A0}' || c == '\U{1680}'
    || '\U{2000}' <= c <= '\U{200A}'
    || c == '\U{2028}' || c == '\U{2029}' || c == '\U{202F}' || c == '\U{205F}' || c == '\U{3000}'
  }

  /** r is s with some whitespace removed from the front and some from the back. */
  ghost predicate TrimmedFrom(s: string, r: string)
  {
    exists i, j :: 0 <= i <= j <= |s| && r == s[i..j] &&
      (forall k :: 0 <= k < i ==> IsSpace(s[k])) && (forall k :: j <= k < |s| ==> IsSpace(s[k]))
  }

  /** The index of the first occurrence of c in s, or |s|. */
  function IndexOf(s: string, c: char): (i: nat)
    ensures i <= |s|
    ensures i < |s| ==> s[i] == c
    ensures forall j :: 0 <= j < i ==> s[j] != c
  {
    if |s| == 0 then 0 else if s[0] == c then 0 else 1 + IndexOf(s[1..], c)
  }

  /** Whitespace dropped from the front of s may be counted as trimmed. */
  lemma TrimmedAfterFront(s: string, r: string)
    requires |s| > 0 && IsSpace(s[0]) && TrimmedFrom(s[1..], r)
    ensures TrimmedFrom(s, r)
  {
    var t := s[1..];
    var i, j :| 0 <= i <= j <= |t| && r == t[i..j] &&
      (forall k :: 0 <= k < i ==> IsSpace(t[k])) && (forall k :: j <= k < |t| ==> IsSpace(t[k]));
    assert r == s[i + 1..j + 1];
    forall k | 0 <= k < i + 1 ensures IsSpace(s[k]) {
      if k > 0 { assert s[k] == t[k - 1]; }
    }
    forall k | j + 1 <= k < |s| ensures IsSpace(s[k]) {
      assert s[k] == t[k - 1];
    }
  }

  /** Whitespace dropped from the back of s may be counted as trimmed. */
  lemma TrimmedAfterBack(s: string, r: string)
    requires |s| > 0 && IsSpace(s[|s| - 1]) && TrimmedFrom(s[..|s| - 1], r)
    ensures TrimmedFrom(s, r)
  {
    var t := s[..|s| - 1];
    var i, j :| 0 <= i <= j <= |t| && r == t[i..j] &&
      (forall k :: 0 <= k < i ==> IsSpace(t[k])) && (forall k :: j <= k < |t| ==> IsSpace(t[k]));
    assert r == s[i..j];
    forall k | 0 <= k < i ensures IsSpace(s[k]) {
      assert s[k] == t[k];
    }
    forall k | j <= k < |s| ensures IsSpace(s[k]) {
      if k < |t| { assert s[k] == t[k]; }
    }
  }

  /** s with all leading and trailing whitespace removed: a slice of s with only
      whitespace outside it and no whitespace at its ends. */
  function Strip(s: string): (r: string)
    ensures TrimmedFrom(s, r)
    ensures |r| > 0 ==> !IsSpace(r[0]) && !IsSpace(r[|r| - 1])
    decreases |s|
  {
    if |s| == 0 then
      assert s == s[0..0];
      s
    else if IsSpace(s[0]) then
      var r := Strip(s[1..]);
      TrimmedAfterFront(s, r);
      r
    else if IsSpace(s[|s| - 1]) then
      var r := Strip(s[..|s| - 1]);
      TrimmedAfterBack(s, r);
      r
    else
      assert s == s[0..|s|];
      s
  }

  /** line.split('=')[1]: the text that starts right after the first '=' and
      runs up to the next '=' or to the end of the line. */
  function SecondField(line: string): (f: string)
    requires IndexOf(line, '=') < |line|
    ensures var start := IndexOf(line, '=') + 1;
      start + |f| <= |line| && f == line[start..start + |f|] &&
      '=' !in f && (start + |f| == |line| || line[start + |f|] == '=')
  {
    var rest := line[IndexOf(line, '=') + 1..];
    rest[..IndexOf(rest, '=')]
  }

  /** The index of the first line that starts with the key, or |lines|. */
  function FirstMatch(lines: seq<string>, key: string): (k: nat)
    ensures k <= |lines|
    ensures k < |lines| ==> StartsWith(lines[k], key)
    ensures forall j :: 0 <= j < k ==> !StartsWith(lines[j], key)
  {
    if |lines| == 0 then 0
    else if StartsWith(lines[0], key) then 0
    else 1 + FirstMatch(lines[1..], key)
  }

  /** The value of the first line starting with key: its second '='-separated
      field, stripped; None when no line starts with key; an error when that
      line holds no '='. */
  method ConfigValue(lines: seq<string>, key: string) returns (r: Result<Option<string>, LookupError>)
    ensures var k := FirstMatch(lines, key);
      if k == |lines| then r == Success(None)
      else if IndexOf(lines[k], '=') == |lines[k]| then r == Failure(NoSeparator(lines[k]))
      else r == Success(Some(Strip(SecondField(lines[k]))))
  {
    var i := 0;
    while i < |lines|
      invariant 0 <= i <= |lines|
      invariant forall j :: 0 <= j < i ==> !StartsWith(lines[j], key)
    {
      var line := lines[i];
      if StartsWith(line, key) {
        if IndexOf(line, '=') == |line| {
          return Failure(NoSeparator(line));
        }
        return Success(Some(Strip(SecondField(line))));
      }
      i := i + 1;
    }
    return Success(None);
  }
}
