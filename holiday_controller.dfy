/** HolidayController.checkHoliday: the GET /api/v1/holidays/check handler.
    It validates the two query parameters, upper-cases the country code,
    calls the service and maps the service's outcome to an HTTP status. */
module HolidayController {
  import opened Dto
  import opened IsoDate
  import opened HolidayService

  const MissingParametersMessage := "Both 'date' (YYYY-MM-DD) and 'countryCode' parameters are required."
  const CountryCodeLengthMessage := "countryCode must be a 2-letter ISO code."
  const InternalErrorMessage := "An internal error occurred while checking the holiday."

  /** The handler's answer: the 200 body, or the status and message of the
      ResponseStatusException it throws. */
  datatype Response =
    | Ok(body: HolidayCheck)
    | BadRequest(message: string)
    | InternalError(message: string)

  function Status(r: Response): int {
    match r
    case Ok(_) => 200
    case BadRequest(_) => 400
    case InternalError(_) => 500
  }

  /** `Character.isWhitespace`: the Unicode space, line and paragraph
      separators other than the no-break spaces U+00A0, U+2007 and U+202F,
      and the controls U+0009 to U+000D and U+001C to U+001F. */
  predicate IsWhitespace(c: char): (b: bool)
    ensures c == ' ' || c == '\t' || c == '\n' || c == '\r' ==> b
    ensures c as int == 0xA0 || c as int == 0x2007 || c as int == 0x202F ==> !b
    ensures b ==> !('0' <= c <= '9') && !('a' <= c <= 'z') && !('A' <= c <= 'Z')
  {
    var n := c as int;
    n == 0x20 || 0x09 <= n <= 0x0D || 0x1C <= n <= 0x1F
    || n == 0x1680 || 0x2000 <= n <= 0x2006 || 0x2008 <= n <= 0x200A
    || n == 0x2028 || n == 0x2029 || n == 0x205F || n == 0x3000
  }

  /** `String.isBlank`: empty or whitespace only. */
  predicate IsBlank(s: string): (b: bool)
    ensures |s| == 0 ==> b
    ensures (forall i | 0 <= i < |s| :: s[i] in {' ', '\t', '\n', '\r'}) ==> b
    ensures (exists i | 0 <= i < |s| :: s[i] as int == 0xA0) ==> !b
    ensures b ==> forall i | 0 <= i < |s| :: !('0' <= s[i] <= '9') && !('a' <= s[i] <= 'z') && !('A' <= s[i] <= 'Z')
  {
    forall i | 0 <= i < |s| :: IsWhitespace(s[i])
  }

  /** A request parameter that is null or blank. */
  predicate MissingOrBlank(p: Option<string>) {
    p.None? || IsBlank(p.value)
  }

  predicate IsAsciiLower(c: char) {
    'a' <= c <= 'z'
  }

  function UpperChar(c: char): char {
    if IsAsciiLower(c) then ((c as int) - 32) as char else c
  }

  /** `String.toUpperCase` on ASCII letters; every other character is kept. */
  function ToUpperCase(s: string): (u: string)
    ensures |u| == |s|
    ensures forall i | 0 <= i < |s| :: !IsAsciiLower(u[i])
    ensures forall i | 0 <= i < |s| :: IsAsciiLower(s[i]) || u[i] == s[i]
    ensures forall i | 0 <= i < |s| :: IsAsciiLower(s[i]) ==>
      u[i] == "ABCDEFGHIJKLMNOPQRSTUVWXYZ"[s[i] as int - 'a' as int]
  {
    seq(|s|, i requires 0 <= i < |s| => UpperChar(s[i]))
  }

  /** HolidayController.checkHoliday, with the injected service as a parameter. */
  function CheckHoliday(date: Option<string>, countryCode: Option<string>, service: (string, string) -> ServiceOutcome): (r: Response)
    ensures MissingOrBlank(date) || MissingOrBlank(countryCode) ==> r == BadRequest(MissingParametersMessage)
    ensures !MissingOrBlank(date) && !MissingOrBlank(countryCode) && |countryCode.value| != 2 ==>
      r == BadRequest(CountryCodeLengthMessage)
    ensures r.Ok? ==>
      && date.Some? && !IsBlank(date.value)
      && countryCode.Some? && !IsBlank(countryCode.value) && |countryCode.value| == 2
      && service(date.value, ToUpperCase(countryCode.value)) == Returned(r.body)
    ensures r.InternalError? ==> r.message == InternalErrorMessage
  {
    if MissingOrBlank(date) || MissingOrBlank(countryCode) then
      BadRequest(MissingParametersMessage)
    else if |countryCode.value| != 2 then
      BadRequest(CountryCodeLengthMessage)
    else
      match service(date.value, ToUpperCase(countryCode.value))
      case Returned(check) => Ok(check)
      case IllegalArgument(message) => BadRequest(message)
      case NullPointer => InternalError(InternalErrorMessage)
  }

  /** A request that fails validation is answered 400 without calling the
      service: the answer is the same whatever the service would have done,
      so the catch blocks never turn it into a 500. */
  lemma ValidationNeverCallsService(date: Option<string>, countryCode: Option<string>, s1: (string, string) -> ServiceOutcome, s2: (string, string) -> ServiceOutcome)
    requires MissingOrBlank(date) || MissingOrBlank(countryCode) || |countryCode.value| != 2
    ensures CheckHoliday(date, countryCode, s1) == CheckHoliday(date, countryCode, s2)
    ensures Status(CheckHoliday(date, countryCode, s1)) == 400
  {
  }

  /** A blank country code of the wrong length gets the blank-parameter message,
      not the length message. */
  lemma BlankCheckComesFirst(service: (string, string) -> ServiceOutcome)
    ensures CheckHoliday(Some("2025-12-25"), Some("   "), service) == BadRequest(MissingParametersMessage)
    ensures CheckHoliday(Some("2025-12-25"), Some(""), service) == BadRequest(MissingParametersMessage)
    ensures CheckHoliday(Some("2025-12-25"), Some("USA"), service) == BadRequest(CountryCodeLengthMessage)
  {
    assert !IsBlank("2025-12-25") by { assert !IsWhitespace("2025-12-25"[0]); }
    assert IsBlank("   ");
    assert !IsBlank("USA") by { assert !IsWhitespace("USA"[0]); }
  }

  /** Validation is syntactic: any two non-blank characters reach the service
      upper-cased, with the date untouched, and the service's outcome is
      mapped as it is: a result to 200 unchanged, an IllegalArgumentException
      to 400 with its message verbatim, and a NullPointerException (the only
      other exception the service raises) to 500. */
  lemma ValidRequestReachesService(date: string, countryCode: string, service: (string, string) -> ServiceOutcome)
    requires !IsBlank(date) && !IsBlank(countryCode) && |countryCode| == 2
    ensures var outcome := service(date, ToUpperCase(countryCode));
      var r := CheckHoliday(Some(date), Some(countryCode), service);
      && (r.Ok? <==> outcome.Returned?)
      && (outcome.Returned? ==> r.body == outcome.check)
      && (outcome.IllegalArgument? <==> r.BadRequest?)
      && (outcome.IllegalArgument? ==> r.message == outcome.message)
      && (outcome.NullPointer? <==> Status(r) == 500)
  {
  }

  // ----- The endpoint: controller and service together -----

  /** The endpoint as deployed: the controller calling the service, whose
      HTTP call to the provider is `provider`. */
  function CheckEndpoint(date: Option<string>, countryCode: Option<string>, provider: FetchRequest -> FetchOutcome): (r: Response)
    ensures r.Ok? ==>
      && date.Some? && r.body.date == date.value
      && countryCode.Some? && r.body.countryCode == ToUpperCase(countryCode.value)
    ensures r.BadRequest? ==>
      r.message in {MissingParametersMessage, CountryCodeLengthMessage, InvalidDateMessage}
    ensures r.InternalError? ==> r.message == InternalErrorMessage
  {
    CheckHoliday(date, countryCode, (d, c) => HolidayService.CheckHoliday(d, c, provider))
  }

  /** Parameters the controller lets through. */
  predicate PassesValidation(date: Option<string>, countryCode: Option<string>) {
    !MissingOrBlank(date) && !MissingOrBlank(countryCode) && |countryCode.value| == 2
  }

  /** A 200 body echoes the date as given and the country code upper-cased;
      it names a holiday only when it says the date is one. */
  lemma EndpointEchoesQuery(date: Option<string>, countryCode: Option<string>, provider: FetchRequest -> FetchOutcome)
    requires CheckEndpoint(date, countryCode, provider).Ok?
    ensures var body := CheckEndpoint(date, countryCode, provider).body;
      && date.Some? && body.date == date.value
      && countryCode.Some? && body.countryCode == ToUpperCase(countryCode.value)
      && |body.countryCode| == 2
      && (!body.isHoliday ==> body.holidayName.None?)
  {
  }

  /** The endpoint answers 400 exactly when a parameter is missing or blank,
      the country code is not two characters long, or the date is not a
      valid YYYY-MM-DD calendar date. */
  lemma EndpointBadRequestIff(date: Option<string>, countryCode: Option<string>, provider: FetchRequest -> FetchOutcome)
    ensures Status(CheckEndpoint(date, countryCode, provider)) == 400 <==>
      !PassesValidation(date, countryCode) || ParseIsoLocalDate(date.value).None?
  {
  }

  /** The endpoint answers 500 exactly when the request is valid and the scan
      of the provider's list reaches a record without a date before any match. */
  lemma EndpointInternalErrorIff(date: Option<string>, countryCode: Option<string>, provider: FetchRequest -> FetchOutcome)
    ensures Status(CheckEndpoint(date, countryCode, provider)) == 500 <==>
      && PassesValidation(date, countryCode)
      && ParseIsoLocalDate(date.value).Some?
      && var hs := YearHolidays(ParseIsoLocalDate(date.value).value, ToUpperCase(countryCode.value), provider);
         exists i | 0 <= i < |hs| :: hs[i].date.None? && forall j | 0 <= j < i :: PassesOver(hs[j], date.value)
  {
    if PassesValidation(date, countryCode) && ParseIsoLocalDate(date.value).Some? {
      HolidayService.NullPointerIffNullDateFirst(date.value, ToUpperCase(countryCode.value), provider);
    }
  }

  /** A failed provider call answers 200 "not a holiday", never an error. */
  lemma EndpointProviderFailureIsNotHoliday(date: string, countryCode: string, provider: FetchRequest -> FetchOutcome)
    requires PassesValidation(Some(date), Some(countryCode)) && ParseIsoLocalDate(date).Some?
    requires !provider(FetchRequest(YearString(ParseIsoLocalDate(date).value.year), ToUpperCase(countryCode))).Body?
    ensures CheckEndpoint(Some(date), Some(countryCode), provider) ==
      Ok(HolidayCheck(date, ToUpperCase(countryCode), false, None))
  {
  }

  const Christmas := ProviderHoliday(Some("2025-12-25"), Some("Christmas Day"), Some("Christmas Day"), Some("US"), Some("Public"))
  const NewYear := ProviderHoliday(Some("2025-01-01"), Some("New Year's Day"), Some("New Year's Day"), Some("US"), Some("Public"))

  /** The query parameters of the scenarios below are not blank. */
  lemma QueriesNotBlank()
    ensures !IsBlank("2025-12-25") && !IsBlank("2025-12-26") && !IsBlank("2025-13-01")
    ensures !IsBlank("us") && !IsBlank("US")
  {
    assert !IsWhitespace("2025-12-25"[0]) && !IsWhitespace("2025-12-26"[0]) && !IsWhitespace("2025-13-01"[0]);
    assert !IsWhitespace("us"[0]) && !IsWhitespace("US"[0]);
  }

  lemma CountryCodesUpperCased()
    ensures ToUpperCase("us") == "US" && ToUpperCase("US") == "US"
  {
  }

  /** `String.valueOf(2025)` is "2025". */
  lemma YearString2025()
    ensures YearString(2025) == "2025"
  {
  }

  /** Christmas 2025 in the United States: a lower-case country code is
      upper-cased, the provider is asked for 2025/US, and the matching
      record's name is reported. */
  lemma ChristmasScenario(provider: FetchRequest -> FetchOutcome)
    requires provider(FetchRequest("2025", "US")) == Body([NewYear, Christmas])
    ensures CheckEndpoint(Some("2025-12-25"), Some("us"), provider) ==
      Ok(HolidayCheck("2025-12-25", "US", true, Some("Christmas Day")))
  {
    ChristmasInService(provider);
    QueriesNotBlank();
    CountryCodesUpperCased();
    ValidRequestReachesService("2025-12-25", "us", (d, c) => HolidayService.CheckHoliday(d, c, provider));
  }

  lemma ChristmasInService(provider: FetchRequest -> FetchOutcome)
    requires provider(FetchRequest("2025", "US")) == Body([NewYear, Christmas])
    ensures HolidayService.CheckHoliday("2025-12-25", "US", provider) ==
      Returned(HolidayCheck("2025-12-25", "US", true, Some("Christmas Day")))
  {
    Dec25Parses();
    YearString2025();
    FindFirstReturnsFirstMatch([NewYear, Christmas], "2025-12-25", 1);
  }

  lemma Dec25Parses()
    ensures ParseIsoLocalDate("2025-12-25") == Some(Date(2025, 12, 25))
  {
    ParseShapedText("2025-12-25");
  }

  /** The same list without the requested date answers "not a holiday". */
  lemma NoMatchScenario(provider: FetchRequest -> FetchOutcome)
    requires provider(FetchRequest("2025", "US")) == Body([NewYear, Christmas])
    ensures CheckEndpoint(Some("2025-12-26"), Some("US"), provider) ==
      Ok(HolidayCheck("2025-12-26", "US", false, None))
  {
    NoMatchInService(provider);
    QueriesNotBlank();
    CountryCodesUpperCased();
    ValidRequestReachesService("2025-12-26", "US", (d, c) => HolidayService.CheckHoliday(d, c, provider));
  }

  lemma NoMatchInService(provider: FetchRequest -> FetchOutcome)
    requires provider(FetchRequest("2025", "US")) == Body([NewYear, Christmas])
    ensures HolidayService.CheckHoliday("2025-12-26", "US", provider) ==
      Returned(HolidayCheck("2025-12-26", "US", false, None))
  {
    Dec26Parses();
    YearString2025();
    assert forall h | h in [NewYear, Christmas] :: PassesOver(h, "2025-12-26");
  }

  lemma Dec26Parses()
    ensures ParseIsoLocalDate("2025-12-26") == Some(Date(2025, 12, 26))
  {
    ParseShapedText("2025-12-26");
  }

  /** Month 13 is answered 400 with the service's message. */
  lemma MonthThirteenScenario(provider: FetchRequest -> FetchOutcome)
    ensures CheckEndpoint(Some("2025-13-01"), Some("US"), provider) == BadRequest(InvalidDateMessage)
  {
    MonthThirteenRefused();
    QueriesNotBlank();
  }
}
