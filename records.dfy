/** The directory record shared by the page, the card and the query route. */
module Records {
  import opened Optional

  /** One advocate, with the fields in the order of the record type. The
      record type declares every field present; here every field may be absent
      (`None`) so that the cases the code guards against can be stated: the
      page's fallbacks to `''`, `0` and `[]` for a missing value, and SQL's
      NULL in the table. `yearsOfExperience` and `phoneNumber` are strings, as
      the record type declares them; `toString()` and `CAST(... AS TEXT)` leave
      a string as it is. */
  datatype Advocate = Advocate(
    firstName: Option<string>,
    lastName: Option<string>,
    city: Option<string>,
    degree: Option<string>,
    specialties: Option<seq<string>>,
    yearsOfExperience: Option<string>,
    phoneNumber: Option<string>)
}
