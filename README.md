# holiday-service, modelled in Dafny

The service answers one question over HTTP: is date D a public holiday in
country C? `GET /api/v1/holidays/check?date=…&countryCode=…` is handled by
`HolidayController.checkHoliday`. The handler works in four steps:

1. It checks that both parameters are present and not blank.
2. It checks that the country code is two characters long.
3. It upper-cases the country code and calls `HolidayService.checkHoliday`.
4. It maps the service's result or exception to HTTP 200, 400 or 500.

The service parses the date as an ISO 8601 calendar date (YYYY-MM-DD,
strict). It turns the year back into text with `String.valueOf`. It fetches
the provider's holiday list for that year and country. It then reports the
first record whose `date` string-equals the requested date, using that
record's `name`. When the provider call fails, or returns a null body, the
list counts as empty.

The model is pure, like the two source files:

- `dto.dfy` (module `Dto`): the two DTOs as datatypes. Java's nullable
  strings are `Option<string>`.
- `iso_date.dfy` (module `IsoDate`): the strict `ISO_LOCAL_DATE` parser for
  four-digit years, the proleptic Gregorian calendar, and `String.valueOf`
  for the year. It also has a formatter (`LocalDate.toString`) that serves
  as the parser's inverse.
- `holiday_service.dfy` (module `HolidayService`): the fetch-failure policy,
  the lazy first-match search, and `checkHoliday`. The HTTP call is a
  parameter `provider: FetchRequest -> FetchOutcome`. So "no fetch is
  attempted" and "the fetch is keyed by the parsed year" become statements
  about every possible provider.
- `holiday_controller.dfy` (module `HolidayController`): the handler, with
  the injected service as a parameter `service: (string, string) ->
  ServiceOutcome`. `CheckEndpoint` composes the handler with the service
  model, for the end-to-end properties.

Exceptions are values. The service returns `Returned(check)`,
`IllegalArgument(message)` or `NullPointer`. The handler returns
`Ok(body)`, `BadRequest(message)` or `InternalError(message)`.

Three facts about the code that the model keeps:

- `isHoliday` true does not imply a non-empty `holidayName`. The code
  copies the matching record's `name`, which may be null or empty
  (HolidayService.java:62). `CheckHoliday` only says the name is the
  matching record's `name`.
- The year sent to the provider is written by `String.valueOf(int)`, which
  drops leading zeros. So "0999-01-01" is fetched under year "999"
  (HolidayService.java:43, `YearStringOfParsedDate`).
- A record whose `date` is null, reached by the search before any match,
  makes the filter throw a `NullPointerException` (HolidayService.java:54).
  The controller answers it with 500 (HolidayController.java:64-67).

## Model

| member | source | states |
|---|---|---|
| `IsoDate.IsLeapYear` | src/main/java/com/example/holiday_service/service/HolidayService.java:42 | a year not divisible by 4 is common; one divisible by 4 but not by 100 is leap; a century year is leap exactly when divisible by 400 |
| `IsoDate.DaysInMonth` | src/main/java/com/example/holiday_service/service/HolidayService.java:42 | months have 28 to 31 days; February has 29 exactly in proleptic Gregorian leap years; the 30-day months are April, June, September and November; January, March, May, July, August, October and December have 31 |
| `IsoDate.DaysBeforeMonth` | src/main/java/com/example/holiday_service/service/HolidayService.java:42 | the months before month m hold between 28(m-1) and 31(m-1) days |
| `IsoDate.YearLength` | src/main/java/com/example/holiday_service/service/HolidayService.java:42 | the twelve month lengths add up to 366 in a leap year and 365 otherwise |
| `IsoDate.IsValidDate` | src/main/java/com/example/holiday_service/service/HolidayService.java:42 | a date is accepted exactly when its month is 1 to 12 and its day is 1 to 28, or up to 30 outside February, or 29 February in a leap year, or 31 in January, March, May, July, August, October or December; so 30 February is always refused |
| `IsoDate.ParseIsoLocalDate` | src/main/java/com/example/holiday_service/service/HolidayService.java:41-47 | a parsed date is a valid calendar date with a four-digit year spelled by the first four characters; a text not of the form DDDD-DD-DD is always refused |
| `IsoDate.ParseFormatRoundTrip` | src/main/java/com/example/holiday_service/service/HolidayService.java:42 | every valid date with a year from 0000 to 9999 is read back from its YYYY-MM-DD text |
| `IsoDate.FormatParseRoundTrip` | src/main/java/com/example/holiday_service/service/HolidayService.java:42 | every text the parser accepts is the canonical text of the date it returns, so the parser is the exact inverse of the formatter |
| `IsoDate.ParseShapedText` | src/main/java/com/example/holiday_service/service/HolidayService.java:42 | a text of the right shape parses to the date its digits spell if the strict resolver accepts that date, and is refused otherwise |
| `IsoDate.MonthThirteenRefused` | src/main/java/com/example/holiday_service/service/HolidayService.java:41-47 | "2025-13-01" is refused |
| `IsoDate.LeapDayAccepted` | src/main/java/com/example/holiday_service/service/HolidayService.java:42 | 29 February parses in 2024 and in 2000 |
| `IsoDate.LeapDayRefused` | src/main/java/com/example/holiday_service/service/HolidayService.java:42 | 29 February is refused in 2025 and in 1900 |
| `IsoDate.DecimalString` | src/main/java/com/example/holiday_service/service/HolidayService.java:43 | `String.valueOf` of a non-negative int is a non-empty digit string without a leading zero |
| `IsoDate.DecimalStringRoundTrip` | src/main/java/com/example/holiday_service/service/HolidayService.java:43 | the text `String.valueOf` writes denotes the number it was given |
| `IsoDate.YearString` | src/main/java/com/example/holiday_service/service/HolidayService.java:43 | `String.valueOf` of a non-negative year is a digit string denoting it, with no leading zero; of a negative year, a minus sign followed by a digit string denoting its magnitude |
| `IsoDate.YearStringOfParsedDate` | src/main/java/com/example/holiday_service/service/HolidayService.java:42-43 | the year text sent to the provider denotes the parsed year; it equals the first four characters of the date exactly when the year is 1000 or more, and is shorter than four characters otherwise |
| `HolidayService.HolidaysFromApi` | src/main/java/com/example/holiday_service/service/HolidayService.java:76-89 | a non-null body yields its records in order; a null body, an HTTP client error or any other client exception yields the empty list |
| `HolidayService.YearHolidays` | src/main/java/com/example/holiday_service/service/HolidayService.java:43-50 | the records searched are the provider's answer to the one request for the year as `String.valueOf` writes it and the given country code, or no records when that call fails or returns null |
| `HolidayService.FindFirst` | src/main/java/com/example/holiday_service/service/HolidayService.java:53-57 | a found record is in the list and has the requested date; nothing is found exactly when every record has a date and none matches; a null-date failure needs a record without a date |
| `HolidayService.FindFirstReturnsFirstMatch` | src/main/java/com/example/holiday_service/service/HolidayService.java:53-57 | a matching record preceded only by dated non-matching records is the one returned |
| `HolidayService.FindFirstStopsAtNullDate` | src/main/java/com/example/holiday_service/service/HolidayService.java:54 | a record without a date reached before any match makes the search throw |
| `HolidayService.FindFirstStop` | src/main/java/com/example/holiday_service/service/HolidayService.java:53-57 | every search outcome is explained by the first record that does not pass the filter: a match, a null date, or the end of the list |
| `HolidayService.FindFirstIgnoresLaterRecords` | src/main/java/com/example/holiday_service/service/HolidayService.java:57 | once a match is found, appending records to the list does not change the result |
| `HolidayService.CheckHoliday` | src/main/java/com/example/holiday_service/service/HolidayService.java:38-67 | an IllegalArgumentException with the fixed message is thrown exactly when the date does not parse; a result echoes the date and country code unchanged; "not a holiday" carries no name; "holiday" carries the name of a fetched record with the requested date |
| `HolidayService.FetchKeyedByParsedYear` | src/main/java/com/example/holiday_service/service/HolidayService.java:43-50 | the outcome depends on the provider only through its answer to the request for the parsed year and the given country |
| `HolidayService.InvalidDateNeverFetches` | src/main/java/com/example/holiday_service/service/HolidayService.java:41-50 | an invalid date gives the same IllegalArgumentException whatever the provider would answer |
| `HolidayService.FetchFailureIsNotHoliday` | src/main/java/com/example/holiday_service/service/HolidayService.java:76-89 | a null body or any client failure gives the result "not a holiday", never an error |
| `HolidayService.IsHolidayIffFirstStopMatches` | src/main/java/com/example/holiday_service/service/HolidayService.java:53-62 | for a valid date, the answer is a holiday exactly when some record matches and every record before it has a date that does not match |
| `HolidayService.HolidayNameIsFirstMatchName` | src/main/java/com/example/holiday_service/service/HolidayService.java:57-62 | the name reported is the `name` (not `localName`) of the first matching record |
| `HolidayService.NullPointerIffNullDateFirst` | src/main/java/com/example/holiday_service/service/HolidayService.java:53-57 | for a valid date, a NullPointerException is thrown exactly when a record without a date comes before any match |
| `HolidayService.IsHolidayIffSomeRecordMatches` | src/main/java/com/example/holiday_service/service/HolidayService.java:53-65 | when every fetched record has a date, the service returns a result, and it is a holiday exactly when some record's date equals the requested one |
| `HolidayService.OnlyDateAndNameMatter` | src/main/java/com/example/holiday_service/service/HolidayService.java:53-62 | lists that agree on each record's `date` and `name` give the same outcome, whatever `type`, `localName` or `countryCode` they hold |
| `HolidayService.LaterRecordsNeverExamined` | src/main/java/com/example/holiday_service/service/HolidayService.java:53-57 | records appended after a positive answer's match, null-dated ones included, do not change the answer |
| `HolidayController.IsWhitespace` | src/main/java/com/example/holiday_service/controller/HolidayController.java:48 | space, tab, line feed and carriage return are whitespace; the no-break spaces U+00A0, U+2007 and U+202F are not; no ASCII letter or digit is |
| `HolidayController.IsBlank` | src/main/java/com/example/holiday_service/controller/HolidayController.java:48 | the empty string and every string of spaces, tabs, line feeds and carriage returns are blank; a string holding a no-break space U+00A0 is not; a blank string holds no ASCII letter or digit, so a date or a letter code is never blank |
| `HolidayController.ToUpperCase` | src/main/java/com/example/holiday_service/controller/HolidayController.java:58 | upper-casing keeps the length and changes only lower-case ASCII letters; each lower-case letter becomes the upper-case letter at the same place in the alphabet |
| `HolidayController.CheckHoliday` | src/main/java/com/example/holiday_service/controller/HolidayController.java:38-69 | a null or blank parameter gives 400 with the "required" message; otherwise a country code whose length is not 2 gives 400 with the "2-letter" message; 200 only for valid parameters, carrying the service's result for the date and upper-cased code; a 500 carries the fixed generic message |
| `HolidayController.ValidationNeverCallsService` | src/main/java/com/example/holiday_service/controller/HolidayController.java:48-57 | a request failing validation is answered 400 whatever the service would do, so the service is not called and the catch blocks never make it a 500 |
| `HolidayController.BlankCheckComesFirst` | src/main/java/com/example/holiday_service/controller/HolidayController.java:48-55 | a blank country code gets the "required" message even when its length is not 2; a non-blank three-letter code gets the "2-letter" message |
| `HolidayController.ValidRequestReachesService` | src/main/java/com/example/holiday_service/controller/HolidayController.java:57-67 | any non-blank two-character code reaches the service upper-cased; a service result becomes 200 unchanged, an IllegalArgumentException becomes 400 with its message verbatim, a NullPointerException (the only other exception the service raises) becomes 500 |
| `HolidayController.CheckEndpoint` | src/main/java/com/example/holiday_service/controller/HolidayController.java:58 | end to end, a 200 body carries the date as given and the country code upper-cased; a 400 carries one of the three validation messages; a 500 carries the fixed generic message |
| `HolidayController.EndpointEchoesQuery` | src/main/java/com/example/holiday_service/controller/HolidayController.java:58-59 | end to end, a 200 body echoes the date and the upper-cased two-character country code, and "not a holiday" carries no name |
| `HolidayController.EndpointBadRequestIff` | src/main/java/com/example/holiday_service/controller/HolidayController.java:48-63 | end to end, 400 exactly when a parameter is missing or blank, the code is not two characters, or the date is not a valid YYYY-MM-DD date |
| `HolidayController.EndpointInternalErrorIff` | src/main/java/com/example/holiday_service/controller/HolidayController.java:64-67 | end to end, 500 exactly when the request is valid and the search reaches a record without a date before any match |
| `HolidayController.EndpointProviderFailureIsNotHoliday` | src/main/java/com/example/holiday_service/service/HolidayService.java:78-88 | end to end, a failed provider call gives 200 "not a holiday" with no name |
| `HolidayController.ChristmasScenario` | src/main/java/com/example/holiday_service/controller/HolidayController.java:57-59 | "2025-12-25" with "us", and a provider listing Christmas for 2025/US, gives 200 {"2025-12-25", "US", true, "Christmas Day"} |
| `HolidayController.NoMatchScenario` | src/main/java/com/example/holiday_service/service/HolidayService.java:63-65 | a date missing from the provider's list gives 200 "not a holiday" with no name |
| `HolidayController.MonthThirteenScenario` | src/main/java/com/example/holiday_service/controller/HolidayController.java:60-63 | "2025-13-01" gives 400 with "Invalid date format. Please use YYYY-MM-DD." |

## Left out

- The outbound HTTP call is not modelled: URL construction, `RestTemplate.getForObject` and JSON deserialisation (HolidayService.java:71-77). The provider is an input function from the request to its outcome. A malformed configured base URL, which would make `UriComponentsBuilder` throw, is configuration and is not modelled.
- Logging (slf4j), Spring wiring and annotations, Swagger metadata and Lombok accessors are not modelled. They do not affect results.
- Spring's own rejection of a missing required `@RequestParam` happens before the handler runs and is not modelled. The model follows the handler's own null and blank check.
- `IsoDate.ParseIsoLocalDate`: accepts only four unsigned year digits. `ISO_LOCAL_DATE` also accepts signed years ("-0001-01-01") and years of five or more digits with a plus sign ("+10000-01-01"); the model refuses these texts.
- `HolidayController.ToUpperCase`: upper-cases ASCII letters only. Java's locale-sensitive `toUpperCase` also maps other letters, and can change the length ("ß" becomes "SS"). Under a Turkish or Azerbaijani default locale it maps ASCII "i" to "İ" (U+0130), so "it" would not become "IT"; the model always gives "IT".
- `HolidayController.IsBlank` follows `Character.isWhitespace` on characters, as the source does; it does not model unpaired UTF-16 surrogates, which Dafny strings cannot hold.
- `HolidayController.CheckHoliday`: the country-code length counts Dafny characters (Unicode scalar values), not Java's UTF-16 code units. A single supplementary character such as U+1D400 has Java length 2 and reaches the service in Java; the model answers it 400 with the "2-letter" message.
- A null element inside the provider's array would also throw a NullPointerException in the filter. The model's list holds records only; a null record field is modelled.
- The service is called with a null date only by code outside the controller. That would throw a NullPointerException from `LocalDate.parse`; the model's service takes a non-null date.
- Exceptions that are not `RuntimeException`s (JVM errors) are not modelled. They escape both catch blocks.
- `HolidayService.HolidaysFromApi`: the HTTP status of a client error is recorded but has no effect, as in the source.
