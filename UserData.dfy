/**
 * The stored user record of the users endpoint. Every field is final; each
 * `set…` method builds and returns a new record that differs from the
 * receiver in the named fields only.
 */
module Users {

  datatype UserData = UserData(
    loginName: string,
    fullName: string,
    salt: string,
    hash: string,
    disabled: bool,
    groups: seq<string>)
  {
    /** Same login name, groups, password and flag; only the full name may differ. */
    predicate SameExceptFullName(u: UserData)
    {
      loginName == u.loginName && groups == u.groups && hash == u.hash
      && salt == u.salt && disabled == u.disabled
    }

    function SetFullName(fullName: string): (u: UserData)
      ensures u.fullName == fullName && SameExceptFullName(u)
    {
      UserData(loginName, fullName, salt, hash, disabled, groups)
    }

    function SetGroups(groups: seq<string>): (u: UserData)
      ensures u.groups == groups
      ensures u.loginName == loginName && u.fullName == fullName && u.hash == hash
              && u.salt == salt && u.disabled == disabled
    {
      UserData(loginName, fullName, salt, hash, disabled, groups)
    }

    /** `setPassword(hash, salt)`: note the argument order, hash first. */
    function SetPassword(hash: string, salt: string): (u: UserData)
      ensures u.hash == hash && u.salt == salt
      ensures u.loginName == loginName && u.fullName == fullName && u.groups == groups
              && u.disabled == disabled
    {
      UserData(loginName, fullName, salt, hash, disabled, groups)
    }

    function SetEnabled(): (u: UserData)
      ensures !u.disabled
      ensures u.loginName == loginName && u.fullName == fullName && u.groups == groups
              && u.hash == hash && u.salt == salt
    {
      UserData(loginName, fullName, salt, hash, false, groups)
    }

    function SetDisabled(): (u: UserData)
      ensures u.disabled
      ensures u.loginName == loginName && u.fullName == fullName && u.groups == groups
              && u.hash == hash && u.salt == salt
    {
      UserData(loginName, fullName, salt, hash, true, groups)
    }
  }

  /**
   * The Java constructor: its parameters come in the order
   * (loginName, fullName, groups, hash, salt, disabled).
   */
  function NewUserData(loginName: string, fullName: string, groups: seq<string>,
                       hash: string, salt: string, disabled: bool): (u: UserData)
    ensures u.loginName == loginName && u.fullName == fullName && u.groups == groups
    ensures u.hash == hash && u.salt == salt && u.disabled == disabled
  {
    UserData(loginName, fullName, salt, hash, disabled, groups)
  }

  /** Enabling and disabling are idempotent, and the last one called wins. */
  lemma EnableDisableLastWins(u: UserData)
    ensures u.SetEnabled().SetEnabled() == u.SetEnabled()
    ensures u.SetDisabled().SetDisabled() == u.SetDisabled()
    ensures u.SetDisabled().SetEnabled() == u.SetEnabled()
    ensures u.SetEnabled().SetDisabled() == u.SetDisabled()
  {
  }

  /** Setting a field to the value it has gives the record back. */
  lemma SettersKeepUnchangedRecord(u: UserData)
    ensures u.SetFullName(u.fullName) == u
    ensures u.SetGroups(u.groups) == u
    ensures u.SetPassword(u.hash, u.salt) == u
    ensures u.disabled ==> u.SetDisabled() == u
    ensures !u.disabled ==> u.SetEnabled() == u
  {
  }

  /** Setters of different fields commute; the login name never changes. */
  lemma SettersCommute(u: UserData, fullName: string, groups: seq<string>, hash: string, salt: string)
    ensures u.SetFullName(fullName).SetGroups(groups) == u.SetGroups(groups).SetFullName(fullName)
    ensures u.SetFullName(fullName).SetPassword(hash, salt) == u.SetPassword(hash, salt).SetFullName(fullName)
    ensures u.SetGroups(groups).SetPassword(hash, salt) == u.SetPassword(hash, salt).SetGroups(groups)
    ensures u.SetFullName(fullName).SetGroups(groups).SetPassword(hash, salt).SetDisabled().loginName
            == u.loginName
  {
  }
}
