/** The records the admin handlers read and write. */
module Models {

  /** The global user settings blob, restricted to the fields the admin
      handlers examine; every other field is carried through unexamined. */
  datatype UserSettings = UserSettings(
    enableMailVerify: bool,
    verifyMailSender: string,   // "" stands for a missing or empty sender
    maxAddressCount: int)

  /** A row of the `users` table (timestamps and enrichment data aside). */
  datatype User = User(email: string, password: string)
}
