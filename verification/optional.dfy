/** The nullable values of the Kotlin source (`JournalEntry?`, `firstOrNull`,
    `maxByOrNull`) as an explicit Some/None datatype. */
module Optional {

  datatype Option<+T> = None | Some(value: T)

}
