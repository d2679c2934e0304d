// `resolveLocationMapping` of src/lib/locations.ts: the Arabic country and
// city chosen in the settings become the English names, calculation method
// and timezone the prayer-time service is asked for. Three countries are
// mapped; any other country is passed through unchanged.

module Locations {
  import opened JsText

  /** The returned object; the optional members are None when absent, and
      `calcMethod` is its `method` member. */
  datatype Mapping = Mapping(apiCountry: Option<string>, apiCity: Option<string>, calcMethod: Option<int>, timeZone: Option<string>)

  /** An entry of a country's `cityMap`. */
  datatype CityInfo = CityInfo(apiCity: string, timeZone: string)

  const Jordan: string := "الأردن"
  const SaudiArabia: string := "السعودية"
  const Egypt: string := "مصر"

  const JordanCityMap: map<string, CityInfo> := map[
    "عمان" := CityInfo("Amman", "Asia/Amman"),
    "الزرقاء" := CityInfo("Zarqa", "Asia/Amman"),
    "إربد" := CityInfo("Irbid", "Asia/Amman"),
    "العقبة" := CityInfo("Aqaba", "Asia/Amman"),
    "السلط" := CityInfo("As Salt", "Asia/Amman"),
    "مأدبا" := CityInfo("Madaba", "Asia/Amman")]

  const SaudiCityMap: map<string, CityInfo> := map[
    "الرياض" := CityInfo("Riyadh", "Asia/Riyadh"),
    "جدة" := CityInfo("Jeddah", "Asia/Riyadh"),
    "مكة المكرمة" := CityInfo("Makkah", "Asia/Riyadh"),
    "المدينة المنورة" := CityInfo("Madinah", "Asia/Riyadh"),
    "الدمام" := CityInfo("Dammam", "Asia/Riyadh"),
    "الخبر" := CityInfo("Khobar", "Asia/Riyadh")]

  const EgyptCityMap: map<string, CityInfo> := map[
    "القاهرة" := CityInfo("Cairo", "Africa/Cairo"),
    "الإسكندرية" := CityInfo("Alexandria", "Africa/Cairo"),
    "الجيزة" := CityInfo("Giza", "Africa/Cairo")]

  /** The dropdown's cities (`citiesByCountry`) of the three mapped
      countries. */
  const JordanCities: seq<string> := ["عمان", "الزرقاء", "إربد", "العقبة", "السلط", "مأدبا"]
  const SaudiCities: seq<string> := ["الرياض", "جدة", "مكة المكرمة", "المدينة المنورة", "الدمام", "الخبر"]
  const EgyptCities: seq<string> := ["القاهرة", "الإسكندرية", "الجيزة", "شبرا الخيمة", "بور سعيد", "السويس"]

  /** One country's branch: `m = cityMap[city]`, then `m?.apiCity ?? d` and
      `m?.timeZone ?? z`. */
  function CountryMapping(apiCountry: string, calcMethod: int, cityMap: map<string, CityInfo>, city: string,
                          defaultCity: string, defaultZone: string): Mapping {
    var m := if city in cityMap then Some(cityMap[city]) else None;
    Mapping(Some(apiCountry),
            Some(if m.Some? then m.value.apiCity else defaultCity),
            Some(calcMethod),
            Some(if m.Some? then m.value.timeZone else defaultZone))
  }

  /** `resolveLocationMapping(countryAr, cityAr)`; `normalize` is `trim`. */
  function ResolveLocationMapping(countryAr: string, cityAr: string): Mapping {
    var c := Trim(countryAr);
    var city := Trim(cityAr);
    if c == Jordan then CountryMapping("Jordan", 23, JordanCityMap, city, "Amman", "Asia/Amman")
    else if c == SaudiArabia then CountryMapping("Saudi Arabia", 4, SaudiCityMap, city, "Riyadh", "Asia/Riyadh")
    else if c == Egypt then CountryMapping("Egypt", 5, EgyptCityMap, city, "Cairo", "Africa/Cairo")
    else Mapping(Some(countryAr), Some(cityAr), None, None)
  }

  /** Jordan: country code, method 23 and Amman's zone for every city, a
      mapped city's own English name and Amman for any other. */
  lemma JordanMapping(countryAr: string, cityAr: string)
    requires Trim(countryAr) == Jordan
    ensures var r := ResolveLocationMapping(countryAr, cityAr);
      r.apiCountry == Some("Jordan") && r.calcMethod == Some(23) && r.timeZone == Some("Asia/Amman") &&
      r.apiCity == Some(if Trim(cityAr) in JordanCityMap then JordanCityMap[Trim(cityAr)].apiCity else "Amman")
  {
  }

  /** Saudi Arabia: method 4 (Umm al-Qura), Riyadh's zone, Riyadh by
      default. */
  lemma SaudiMapping(countryAr: string, cityAr: string)
    requires Trim(countryAr) == SaudiArabia
    ensures var r := ResolveLocationMapping(countryAr, cityAr);
      r.apiCountry == Some("Saudi Arabia") && r.calcMethod == Some(4) && r.timeZone == Some("Asia/Riyadh") &&
      r.apiCity == Some(if Trim(cityAr) in SaudiCityMap then SaudiCityMap[Trim(cityAr)].apiCity else "Riyadh")
  {
    assert Jordan != SaudiArabia;
  }

  /** Egypt: method 5, Cairo's zone, Cairo by default. */
  lemma EgyptMapping(countryAr: string, cityAr: string)
    requires Trim(countryAr) == Egypt
    ensures var r := ResolveLocationMapping(countryAr, cityAr);
      r.apiCountry == Some("Egypt") && r.calcMethod == Some(5) && r.timeZone == Some("Africa/Cairo") &&
      r.apiCity == Some(if Trim(cityAr) in EgyptCityMap then EgyptCityMap[Trim(cityAr)].apiCity else "Cairo")
  {
    assert Jordan != Egypt && SaudiArabia != Egypt;
  }

  /** Any other country comes back as given, untrimmed, with neither a
      method nor a timezone, although the declared type demands one. */
  lemma OtherCountryPassesThrough(countryAr: string, cityAr: string)
    requires Trim(countryAr) != Jordan && Trim(countryAr) != SaudiArabia && Trim(countryAr) != Egypt
    ensures ResolveLocationMapping(countryAr, cityAr) == Mapping(Some(countryAr), Some(cityAr), None, None)
    ensures ResolveLocationMapping(countryAr, cityAr).timeZone.None?
  {
  }

  /** The result has a timezone exactly when the country is mapped. */
  lemma TimeZoneIffMapped(countryAr: string, cityAr: string)
    ensures ResolveLocationMapping(countryAr, cityAr).timeZone.Some? <==>
      Trim(countryAr) in {Jordan, SaudiArabia, Egypt}
  {
  }

  lemma {:induction false} TrimIdempotent(s: string)
    ensures Trim(Trim(s)) == Trim(s)
  {
    var u := TrimStart(s);
    var t := Trim(s);
    if t != [] {
      TrimStartRemovesSpace(s);
      TrimEndRemovesSpace(u);
      assert t[0] == u[0];
      TrimOfUnpadded(t);
    }
  }

  /** For a mapped country, white space around either name changes
      nothing. */
  lemma MappedIgnoresPadding(countryAr: string, cityAr: string)
    requires Trim(countryAr) in {Jordan, SaudiArabia, Egypt}
    ensures ResolveLocationMapping(countryAr, cityAr) == ResolveLocationMapping(Trim(countryAr), Trim(cityAr))
  {
    TrimIdempotent(countryAr);
    TrimIdempotent(cityAr);
  }

  /** Every Jordanian and Saudi city of the dropdown has its own English
      name; of Egypt's six, the last three (Shubra El Kheima, Port Said,
      Suez) are sent as Cairo. */
  lemma DropdownCitiesMapping()
    ensures forall city :: city in JordanCities ==> city in JordanCityMap
    ensures forall city :: city in SaudiCities ==> city in SaudiCityMap
    ensures forall n :: 0 <= n < 3 ==> EgyptCities[n] in EgyptCityMap
    ensures forall n :: 3 <= n < |EgyptCities| ==> EgyptCities[n] !in EgyptCityMap
  {
  }

  /** Every entry of a city map carries its country's zone, so the zone
      never depends on the city. */
  lemma ZonePerCountry()
    ensures forall city :: city in JordanCityMap ==> JordanCityMap[city].timeZone == "Asia/Amman"
    ensures forall city :: city in SaudiCityMap ==> SaudiCityMap[city].timeZone == "Asia/Riyadh"
    ensures forall city :: city in EgyptCityMap ==> EgyptCityMap[city].timeZone == "Africa/Cairo"
  {
  }
}
