/**
 * The credential record that the table displays (jpass.xml.bind.Entry).
 * Only the getters the table uses are modelled; timestamps are kept as the
 * ISO date-time text that the record stores.
 */
module Entries {
  datatype Entry = Entry(
    title: string,
    url: string,
    user: string,
    password: string,
    creationDate: string,
    lastModification: string)
}
