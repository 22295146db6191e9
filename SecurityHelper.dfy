/**
 * The authority check of the security helper. A user may be `null`, may
 * return a `null` collection of granted authorities, and each granted
 * authority may report a `null` name; the collection is walked in its
 * iteration order and the walk stops at the first exact match.
 */
module Security {
  import opened JavaLang

  datatype GrantedAuthority = GrantedAuthority(authority: JString)

  /** A user as seen by the helper: only its (possibly `null`) authority collection. */
  datatype UserDetails = UserDetails(authorities: Option<seq<GrantedAuthority>>)

  /** The names of the granted authorities, `null` entries included. */
  function AuthorityNames(authorities: seq<GrantedAuthority>): set<JString>
  {
    set g | g in authorities :: g.authority
  }

  /** The user exists, has an authority collection, and one of its entries is named `authority`. */
  predicate Granted(user: Option<UserDetails>, authority: string)
  {
    && user.Some?
    && user.value.authorities.Some?
    && exists g :: g in user.value.authorities.value && g.authority == Some(authority)
  }

  /** `hasAuthority`: the walk over the collection with its early return. */
  method HasAuthority(user: Option<UserDetails>, authority: string) returns (r: bool)
    ensures r == Granted(user, authority)
  {
    if user.None? {
      return false;
    }
    var authorities := user.value.authorities;
    if authorities.None? {
      return false;
    }
    var all := authorities.value;
    for k := 0 to |all|
      invariant forall j :: 0 <= j < k ==> all[j].authority != Some(authority)
    {
      if all[k].authority == Some(authority) {
        return true;
      }
    }
    return false;
  }

  /** `isAdmin`: the administrators' role name is the empty string here. */
  method IsAdmin(user: Option<UserDetails>) returns (r: bool)
    ensures r == (user.Some? && Granted(user, ""))
  {
    if user.None? {
      return false;
    }
    r := HasAuthority(user, "");
  }

  /** The answer depends only on the set of names granted: not on order, repetition or the other fields. */
  lemma GrantedByNames(user: UserDetails, other: UserDetails, authority: string)
    requires user.authorities.Some? && other.authorities.Some?
    requires AuthorityNames(user.authorities.value) == AuthorityNames(other.authorities.value)
    ensures Granted(Some(user), authority) <==> Granted(Some(other), authority)
  {
    var names := AuthorityNames(user.authorities.value);
    if Granted(Some(user), authority) {
      var g :| g in user.authorities.value && g.authority == Some(authority);
      assert Some(authority) in names;
    }
    if Granted(Some(other), authority) {
      var g :| g in other.authorities.value && g.authority == Some(authority);
      assert Some(authority) in AuthorityNames(other.authorities.value);
    }
  }

  /** Granted exactly when the name is among the granted names. */
  lemma GrantedIffNamed(user: UserDetails, authority: string)
    requires user.authorities.Some?
    ensures Granted(Some(user), authority) <==> Some(authority) in AuthorityNames(user.authorities.value)
  {
  }

  /** Without a user or without a collection nothing is granted, and `null` entries never match. */
  lemma NothingGrantedWithoutAuthorities(authority: string, nulls: nat)
    ensures !Granted(None, authority)
    ensures !Granted(Some(UserDetails(None)), authority)
    ensures !Granted(Some(UserDetails(Some(seq(nulls, _ => GrantedAuthority(None))))), authority)
  {
  }

  /** Adding a granted authority never takes a grant away, and grants its own name. */
  lemma GrantIsMonotone(authorities: seq<GrantedAuthority>, extra: GrantedAuthority, authority: string)
    ensures Granted(Some(UserDetails(Some(authorities))), authority)
            ==> Granted(Some(UserDetails(Some(authorities + [extra]))), authority)
    ensures extra.authority == Some(authority) ==> Granted(Some(UserDetails(Some(authorities + [extra]))), authority)
  {
    if Granted(Some(UserDetails(Some(authorities))), authority) {
      var g :| g in authorities && g.authority == Some(authority);
      assert g in authorities + [extra];
    }
    if extra.authority == Some(authority) {
      assert extra in authorities + [extra];
    }
  }

  /** Matching is exact: a longer or differently cased name grants nothing. */
  lemma MatchIsExact()
    ensures !Granted(Some(UserDetails(Some([GrantedAuthority(Some("ROLE_ADMIN"))]))), "ROLE_ADMINS")
    ensures !Granted(Some(UserDetails(Some([GrantedAuthority(Some("ROLE_ADMIN"))]))), "role_admin")
    ensures Granted(Some(UserDetails(Some([GrantedAuthority(None), GrantedAuthority(Some(""))]))), "")
  {
    var u := UserDetails(Some([GrantedAuthority(None), GrantedAuthority(Some(""))]));
    assert u.authorities.value[1] in u.authorities.value;
  }
}
