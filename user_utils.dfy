/** Display names for signed-in users and their profiles (lib/userUtils.js). */
module UserUtils {
  import opened Wrappers
  import opened Strings
  import opened Js

  /** A Supabase user: its `user_metadata` record (absent when nullish) and its `email`. */
  datatype User = User(metadata: Option<Record>, email: Option<string>)

  /** A row of the `profiles` table: `full_name` and `email`. */
  datatype Profile = Profile(fullName: Value, email: Option<string>)

  /** `email?.split('@')[0]`: the user name part, or `undefined` without an email. */
  function EmailName(email: Option<string>): (r: Value)
    ensures email.None? ==> r == Undefined
    ensures email.Some? ==> r.Str? && StartsWith(email.value, r.s) && '@' !in r.s
  {
    match email
    case None => Undefined
    case Some(e) =>
      BeforeFirstIsPrefix(e, '@');
      Str(Split(e, '@')[0])
  }

  /** `user.user_metadata?.full_name` */
  function FullName(user: User): Value {
    match user.metadata
    case None => Undefined
    case Some(m) => Field(m, "full_name")
  }

  /** `getUserDisplayName(user)`; `None` stands for a null or undefined user. */
  function UserDisplayName(user: Option<User>): (r: Value)
    ensures user.None? ==> r == Str("Anonymous")
    ensures user.Some? && Truthy(FullName(user.value)) ==> r == FullName(user.value)
    ensures user.Some? && !Truthy(FullName(user.value)) && Truthy(EmailName(user.value.email)) ==>
      r == EmailName(user.value.email)
    ensures user.Some? && !Truthy(FullName(user.value)) && !Truthy(EmailName(user.value.email)) ==>
      r == Str("User")
    ensures Truthy(r)
  {
    match user
    case None => Str("Anonymous")
    case Some(u) => Or(Or(FullName(u), EmailName(u.email)), Str("User"))
  }

  /** `getProfileDisplayName(profile)`: the same chain, with "Anonymous" also at its end. */
  function ProfileDisplayName(profile: Option<Profile>): (r: Value)
    ensures profile.None? ==> r == Str("Anonymous")
    ensures profile.Some? && Truthy(profile.value.fullName) ==> r == profile.value.fullName
    ensures profile.Some? && !Truthy(profile.value.fullName) && Truthy(EmailName(profile.value.email)) ==>
      r == EmailName(profile.value.email)
    ensures profile.Some? && !Truthy(profile.value.fullName) && !Truthy(EmailName(profile.value.email)) ==>
      r == Str("Anonymous")
    ensures Truthy(r)
  {
    match profile
    case None => Str("Anonymous")
    case Some(p) => Or(Or(p.fullName, EmailName(p.email)), Str("Anonymous"))
  }

  /** Without a full name, an address `name@domain` shows as `name`, and one starting with `@` as "User". */
  lemma EmailNameShown(metadata: Option<Record>, name: string, domain: string)
    requires '@' !in name
    requires metadata.Some? ==> !Truthy(Field(metadata.value, "full_name"))
    ensures UserDisplayName(Some(User(metadata, Some(name + "@" + domain)))) ==
      (if name == [] then Str("User") else Str(name))
  {
    BeforeFirstOf(name, '@', "@" + domain);
    assert name + "@" + domain == name + ("@" + domain);
  }

  /** `getUserDisplayName({ email: '@x.com' })` is "User". */
  lemma LeadingAtGivesUser(e: string)
    requires e == "@x.com"
    ensures UserDisplayName(Some(User(None, Some(e)))) == Str("User")
  {
    EmailNameShown(None, "", "x.com");
    assert "" + "@" + "x.com" == e;
  }
}
