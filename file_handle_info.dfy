/** `FileHandleInfo`: the immutable record that reports one open file handle,
    built by a constructor that validates its string arguments. */
module FileSystem {
  import opened Wrappers
  import opened Int32
  import opened Strings

  /** One entry of the system handle table. Only the owning process id is
      read by this model; the other fields are carried through unchanged. */
  datatype HandleTableEntry = HandleTableEntry(
    uniqueProcessId: nat,
    handleValue: nat,
    objectTypeIndex: nat,
    object: nat)

  /** The record; datatype values are immutable, as the source's readonly
      fields are. */
  datatype FileHandleInfo = FileHandleInfo(
    processName: string,
    filePath: string,
    ntPath: string,
    handleType: string,
    handleInfo: HandleTableEntry)

  /** The arguments the constructor validates, in the order it checks them. */
  datatype Argument = FilePathArgument | NtPathArgument | HandleTypeArgument

  /** Why construction failed: the process lookup threw, or an
      `ArgumentNullException` was thrown for one argument. */
  datatype ConstructionError =
    | ProcessLookupFailed(processId: Int)
    | ArgumentNull(argument: Argument, message: string)

  /** The message each `ArgumentNullException` carries. */
  function Message(a: Argument): string
  {
    match a
    case FilePathArgument => "File path cannot be null or empty."
    case NtPathArgument => "NT path cannot be null or empty."
    case HandleTypeArgument => "Handle type cannot be null or empty."
  }

  /** The `ArgumentNullException` thrown for `a`, with its message. */
  function NullArgument(a: Argument): ConstructionError
  {
    ArgumentNull(a, Message(a))
  }

  /** The three messages differ, so the message alone names the argument. */
  lemma MessageNamesArgument(a: Argument, b: Argument)
    ensures Message(a) == Message(b) ==> a == b
  {
    if a != b {
      assert Message(a)[0] != Message(b)[0] || |Message(a)| != |Message(b)|;
    }
  }

  /** `(int)handleInfo.UniqueProcessId`: an unchecked narrowing cast, which
      keeps the low 32 bits of the id. */
  function ProcessId(entry: HandleTableEntry): (pid: Int)
    ensures (pid - entry.uniqueProcessId) % Modulus == 0
    ensures entry.uniqueProcessId <= MaxValue ==> pid == entry.uniqueProcessId
  {
    Wrap(entry.uniqueProcessId)
  }

  /** The invariant every constructed record satisfies. */
  predicate Valid(info: FileHandleInfo)
  {
    && !IsNullOrWhiteSpace(Some(info.filePath))
    && !IsNullOrWhiteSpace(Some(info.ntPath))
    && !IsNullOrWhiteSpace(Some(info.handleType))
  }

  /** The constructor. `processNameOf` stands for
      `Process.GetProcessById(pid).ProcessName`; `None` is the exception it
      throws when no such process is running. Null strings are `None`. */
  function Create(
    handleInfo: HandleTableEntry,
    filePath: Option<string>,
    ntPath: Option<string>,
    handleType: Option<string>,
    processNameOf: Int -> Option<string>): (r: Result<FileHandleInfo, ConstructionError>)
    // the process lookup comes first and its failure aborts construction
    ensures processNameOf(ProcessId(handleInfo)).None? ==>
      r == Failure(ProcessLookupFailed(ProcessId(handleInfo)))
    // then the three strings, each rejected when null, empty or whitespace only
    ensures processNameOf(ProcessId(handleInfo)).Some? && IsNullOrWhiteSpace(filePath) ==>
      r == Failure(NullArgument(FilePathArgument))
    ensures (processNameOf(ProcessId(handleInfo)).Some? && !IsNullOrWhiteSpace(filePath)
             && IsNullOrWhiteSpace(ntPath)) ==>
      r == Failure(NullArgument(NtPathArgument))
    ensures (processNameOf(ProcessId(handleInfo)).Some? && !IsNullOrWhiteSpace(filePath)
             && !IsNullOrWhiteSpace(ntPath) && IsNullOrWhiteSpace(handleType)) ==>
      r == Failure(NullArgument(HandleTypeArgument))
    // it succeeds exactly when none of those checks fails ...
    ensures r.Success? <==>
      && processNameOf(ProcessId(handleInfo)).Some?
      && !IsNullOrWhiteSpace(filePath)
      && !IsNullOrWhiteSpace(ntPath)
      && !IsNullOrWhiteSpace(handleType)
    // ... and then stores every argument unchanged, untrimmed
    ensures r.Success? ==>
      && Valid(r.value)
      && r.value.processName == processNameOf(ProcessId(handleInfo)).value
      && Some(r.value.filePath) == filePath
      && Some(r.value.ntPath) == ntPath
      && Some(r.value.handleType) == handleType
      && r.value.handleInfo == handleInfo
  {
    var processName := processNameOf(ProcessId(handleInfo));
    if processName.None? then
      Failure(ProcessLookupFailed(ProcessId(handleInfo)))
    else if IsNullOrWhiteSpace(filePath) then
      Failure(NullArgument(FilePathArgument))
    else if IsNullOrWhiteSpace(ntPath) then
      Failure(NullArgument(NtPathArgument))
    else if IsNullOrWhiteSpace(handleType) then
      Failure(NullArgument(HandleTypeArgument))
    else
      Success(FileHandleInfo(processName.value, filePath.value, ntPath.value, handleType.value, handleInfo))
  }

  /** Every valid record is what the constructor builds from its own fields,
      given a lookup that names its process: `Valid` is exactly the set of
      records construction can produce. */
  lemma CreateFromFields(info: FileHandleInfo, processNameOf: Int -> Option<string>)
    requires Valid(info)
    requires processNameOf(ProcessId(info.handleInfo)) == Some(info.processName)
    ensures Create(info.handleInfo, Some(info.filePath), Some(info.ntPath), Some(info.handleType), processNameOf)
      == Success(info)
  {
  }

  /** Rejection does not depend on the arguments after the first offending
      one: an empty file path is reported even when the other two are null. */
  lemma EmptyArgumentsRejected(handleInfo: HandleTableEntry, name: string, s: string)
    requires !IsNullOrWhiteSpace(Some(s))
    ensures Create(handleInfo, Some(""), None, None, _ => Some(name))
      == Failure(NullArgument(FilePathArgument))
    ensures Create(handleInfo, Some(s), Some(""), None, _ => Some(name))
      == Failure(NullArgument(NtPathArgument))
    ensures Create(handleInfo, Some(s), Some(s), Some(" \t"), _ => Some(name))
      == Failure(NullArgument(HandleTypeArgument))
    ensures Create(handleInfo, Some(s), Some(s), Some(s), _ => Some(name)).Success?
  {
    assert AllWhiteSpace(" \t") by {
      assert IsWhiteSpace(" \t"[0]) && IsWhiteSpace(" \t"[1]);
    }
  }

  /** A process that has exited makes construction fail even when every
      string argument is well formed. */
  lemma ExitedProcessRejected(handleInfo: HandleTableEntry, s: string)
    requires !IsNullOrWhiteSpace(Some(s))
    ensures Create(handleInfo, Some(s), Some(s), Some(s), _ => None)
      == Failure(ProcessLookupFailed(ProcessId(handleInfo)))
  {
  }

  /** Process ids above `int.MaxValue` reach the lookup as negative numbers. */
  lemma ProcessIdCast(entry: HandleTableEntry)
    ensures entry.uniqueProcessId <= MaxValue ==> ProcessId(entry) == entry.uniqueProcessId
    ensures entry.uniqueProcessId == 0xFFFF_FFFF ==> ProcessId(entry) == -1
  {
  }
}
