/**
 * Helpers of the authentication form: the protocol radio group, default
 * ports, and turning the form's fields into connection parameters.
 */
module AuthMisc {
  import opened Results

  /** `u16`: the width of a port number. */
  type Port = p: int | 0 <= p < 0x1_0000

  /** `FileTransferProtocol`; `Ftp(true)` is FTP over TLS. */
  datatype FileTransferProtocol = Sftp | Scp | Ftp(secure: bool)

  /** The index of the radio option for each protocol. */
  function ProtocolEnumToOpt(protocol: FileTransferProtocol): (opt: nat)
    ensures opt <= 3
    ensures ProtocolOptToEnum(opt) == protocol
  {
    match protocol
    case Sftp => 0
    case Scp => 1
    case Ftp(false) => 2
    case Ftp(true) => 3
  }

  /**
   * The protocol a radio index selects: 1, 2 and 3 pick SCP, FTP and FTPS;
   * every other index, 0 included, falls back to SFTP.
   */
  function ProtocolOptToEnum(protocol: nat): (p: FileTransferProtocol)
    ensures p == Scp <==> protocol == 1
    ensures p == Ftp(false) <==> protocol == 2
    ensures p == Ftp(true) <==> protocol == 3
    ensures p == Sftp <==> protocol == 0 || protocol > 3
  {
    match protocol
    case 1 => Scp
    case 2 => Ftp(false)
    case 3 => Ftp(true)
    case _ => Sftp
  }

  /** Going from an index to a protocol and back keeps the four radio indices and maps the rest to 0. */
  lemma OptRoundTrip(opt: nat)
    ensures ProtocolEnumToOpt(ProtocolOptToEnum(opt)) == if opt <= 3 then opt else 0
  {
  }

  function GetDefaultPortForProtocol(protocol: FileTransferProtocol): (port: Port)
    ensures port == 21 <==> protocol.Ftp?
    ensures port == 22 <==> !protocol.Ftp?
  {
    match protocol
    case Sftp | Scp => 22
    case Ftp(_) => 21
  }

  /** Whether a port is in the well-known (privileged) range. */
  predicate IsPortStandard(port: Port) {
    port < 1024
  }

  /** Every protocol's default port is a standard one, and the standard range ends at 1023. */
  lemma DefaultPortIsStandard(protocol: FileTransferProtocol)
    ensures IsPortStandard(GetDefaultPortForProtocol(protocol))
    ensures IsPortStandard(1023) && !IsPortStandard(1024)
  {
  }

  /** The fields of the form, as `get_input` returns them. */
  datatype HostInput = HostInput(
    address: string,
    port: Port,
    protocol: FileTransferProtocol,
    username: string,
    password: string)

  /** `FileTransferParams`: what a connection is made with. */
  datatype FileTransferParams = FileTransferParams(
    address: string,
    port: Port,
    protocol: FileTransferProtocol,
    username: Option<string>,
    password: Option<string>,
    entryDirectory: Option<seq<string>>)

  /** An empty field means "not given". */
  function NonEmpty(s: string): (r: Option<string>)
    ensures r.None? <==> s == ""
    ensures r.Some? ==> r.value == s
  {
    if s == "" then None else Some(s)
  }

  /** The host is checked before the port; a valid form is copied into parameters. */
  function CollectHostParams(input: HostInput): (r: Result<FileTransferParams, string>)
    ensures input.address == "" ==> r == Err("Invalid host")
    ensures input.address != "" && input.port == 0 ==> r == Err("Invalid port")
    ensures r.Ok? <==> input.address != "" && input.port != 0
    ensures r.Ok? ==> r.value.address == input.address && r.value.port == input.port
                      && r.value.protocol == input.protocol && r.value.entryDirectory.None?
    ensures r.Ok? ==> r.value.username == NonEmpty(input.username) && r.value.password == NonEmpty(input.password)
  {
    if input.address == "" then Err("Invalid host")
    else if input.port == 0 then Err("Invalid port")
    else Ok(FileTransferParams(input.address, input.port, input.protocol,
                               NonEmpty(input.username), NonEmpty(input.password), None))
  }

  /** Parameters that a form can produce: a host, a non-zero port, no empty credential, no entry directory. */
  predicate FromForm(params: FileTransferParams) {
    && params.address != ""
    && params.port != 0
    && (params.username.Some? ==> params.username.value != "")
    && (params.password.Some? ==> params.password.value != "")
    && params.entryDirectory.None?
  }

  /** The form that shows given parameters: an absent credential is an empty field. */
  function ToInput(params: FileTransferParams): HostInput {
    HostInput(params.address, params.port, params.protocol,
              if params.username.Some? then params.username.value else "",
              if params.password.Some? then params.password.value else "")
  }

  /** Collecting loses nothing: the parameters give back the form they came from. */
  lemma CollectThenShow(input: HostInput)
    requires CollectHostParams(input).Ok?
    ensures FromForm(CollectHostParams(input).value)
    ensures ToInput(CollectHostParams(input).value) == input
  {
  }

  /** Every parameter set a form can produce is produced by the form that shows it. */
  lemma ShowThenCollect(params: FileTransferParams)
    requires FromForm(params)
    ensures CollectHostParams(ToInput(params)) == Ok(params)
  {
  }
}
