/** The account shapes shared by the in-browser store, the HTTP backend and
    the screens: the user view a client holds and the partner view the
    backend exposes. */
module Accounts {
  import opened Base

  /** How an account authenticates: a password of its own, or Google. */
  datatype AuthMethod = Manual | Google

  /** The user record a client holds. `username` is the e-mail address for
      Google accounts. Every field but `username` and `uniqueCode` may be
      absent. */
  datatype User = User(
    username: string,
    displayName: Option<string>,
    pictureUrl: Option<string>,
    uniqueCode: string,
    linkedPartnerCode: Option<string>,
    anniversaryDate: Option<string>)

  /** The public part of a partner's account: no code, link or credentials. */
  datatype Partner = Partner(
    username: string,
    displayName: Option<string>,
    pictureUrl: Option<string>)
}
