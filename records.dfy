/** The employee records every pipeline reads. Equality is structural: two
    records are equal exactly when all their fields are. */
module Records {
  import opened Wrappers

  /** A postal address; only the post code is read by the pipelines, the
      other fields take part in equality only. */
  datatype Address = Address(postCode: string, otherFields: seq<string>)

  datatype Company = Company(name: string, otherFields: seq<string>)

  /** The salary is a BigDecimal, modelled as an exact rational number. The
      correspondence address is an Optional<Address>. */
  datatype Employee = Employee(
    firstName: string,
    surname: string,
    salary: real,
    company: Company,
    homeAddress: Address,
    correspondenceAddress: Option<Address>)
}
