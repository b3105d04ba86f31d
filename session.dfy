/**
 * The actor's session state: the permission labels granted at start-up
 * (src/lib.rs, `State` and `Component::init`). The state is never changed
 * after initialisation; every handler hands it back as it received it.
 */
module Session {
  import opened Wrappers

  /** The configuration record `init` parses from its start-up bytes. */
  datatype InitData = InitData(permissions: seq<string>)

  /** The session state: the labels in the order they were configured, duplicates kept. */
  datatype State = State(permissions: seq<string>)

  /** The least privilege granted when no usable configuration is supplied. */
  const DefaultPermissions: seq<string> := ["read"]

  /**
   * `init`: the configuration is absent (`None`), present but not parseable
   * (`Some(Failure(detail))`), or parsed (`Some(Success(data))`).
   */
  function Init(config: Option<Result<InitData, string>>): (st: State)
    ensures config.Some? && config.value.Success? ==> st.permissions == config.value.value.permissions
    ensures config.None? || config.value.Failure? ==> st.permissions == ["read"]
  {
    match config
    case Some(Success(data)) => State(data.permissions)
    case _ => State(DefaultPermissions)
  }

  /** `state.permissions.contains(perm)`: the label appears at some position of the list. */
  predicate Granted(st: State, perm: string): (ok: bool)
    ensures ok <==> exists i :: 0 <= i < |st.permissions| && st.permissions[i] == perm
  {
    perm in st.permissions
  }

  /** Without a usable configuration, the session may read and may neither write nor delete. */
  lemma DefaultIsLeastPrivilege(config: Option<Result<InitData, string>>)
    requires config.None? || config.value.Failure?
    ensures Granted(Init(config), "read")
    ensures !Granted(Init(config), "write") && !Granted(Init(config), "delete")
    ensures forall perm :: Granted(Init(config), perm) <==> perm == "read"
  {
  }
}
