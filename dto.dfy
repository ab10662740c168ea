/** Value types shared by the service and the controller: Java's nullable
    references and the two data-transfer objects of the holiday service. */
module Dto {

  /** A Java reference that may be null. */
  datatype Option<+T> = None | Some(value: T)

  /** One record of the provider's per-year holiday list (NagerHolidayDTO).
      Every field is a Java String and may be null; only `date` and `name`
      are ever read by the service. Unknown JSON fields are dropped by the
      deserialiser, so they have no counterpart here. */
  datatype ProviderHoliday = ProviderHoliday(
    date: Option<string>,
    localName: Option<string>,
    name: Option<string>,
    countryCode: Option<string>,
    holidayType: Option<string>)

  /** The response body of the endpoint (HolidayCheckDTO). */
  datatype HolidayCheck = HolidayCheck(
    date: string,
    countryCode: string,
    isHoliday: bool,
    holidayName: Option<string>)
}
