/**
 * The location helpers of P4 (`P4/helper_files/geo_helper.py`, with the same
 * `search_database` and `get_geo_information` in
 * `P4_moore/helper_files/geo_helper.py`): each IP address is looked up in a
 * city database and its record is turned into a location text; the texts
 * are collected without repeats, in the order they first appear.
 *
 * The database reader is a parameter: a function from an address to its
 * record, `None` for an address the database does not hold.
 */
module Geo {
  import opened Base

  /** The `names` dictionary of a place: language code to name. */
  type Names = map<string, string>

  /** The parts of a database record the helpers read; `None` for a key the record lacks. */
  datatype Record = Record(
    country: Option<Names>,
    registeredCountry: Option<Names>,
    continent: Option<Names>,
    subdivisions: Option<seq<Names>>,
    city: Option<Names>)

  /** `reader.get(ip)`. */
  type Lookup = string -> Option<Record>

  /** The English name of a place, when the place is there and has one. */
  function English(place: Option<Names>): Option<string> {
    if place.Some? && "en" in place.value then Some(place.value["en"]) else None
  }

  // ---------------------------------------------------------------------------
  // The components of a location (get_info)

  /** The country: from `country`, else `registered_country`, else `continent`, the first with an English name. */
  function CountryName(rec: Record): (r: Option<string>)
    ensures r.Some? <==> English(rec.country).Some? || English(rec.registeredCountry).Some? || English(rec.continent).Some?
    ensures English(rec.country).Some? ==> r == English(rec.country)
    ensures English(rec.country).None? && English(rec.registeredCountry).Some? ==> r == English(rec.registeredCountry)
    ensures English(rec.country).None? && English(rec.registeredCountry).None? ==> r == English(rec.continent)
  {
    if English(rec.country).Some? then English(rec.country)
    else if English(rec.registeredCountry).Some? then English(rec.registeredCountry)
    else English(rec.continent)
  }

  /** The province: the English name of the first subdivision, only when the list is not empty. */
  function ProvinceName(rec: Record): (r: Option<string>)
    ensures r.Some? ==> rec.subdivisions.Some? && |rec.subdivisions.value| > 0 && r == English(Some(rec.subdivisions.value[0]))
    ensures rec.subdivisions.Some? && |rec.subdivisions.value| > 0 ==> r == English(Some(rec.subdivisions.value[0]))
  {
    if rec.subdivisions.Some? && |rec.subdivisions.value| > 0 then English(Some(rec.subdivisions.value[0])) else None
  }

  /** Python truthiness of an optional name: there and not empty. */
  predicate Given(name: Option<string>) {
    name.Some? && name.value != ""
  }

  /** The components that count, in the order city, province, country. */
  function Parts(city: Option<string>, province: Option<string>, country: Option<string>): seq<string> {
    (if Given(city) then [city.value] else []) +
    (if Given(province) then [province.value] else []) +
    (if Given(country) then [country.value] else [])
  }

  /** The location text of a record: its components joined by `, `. */
  function LocationText(rec: Record): (r: string)
    ensures r == "" <==> !Given(English(rec.city)) && !Given(ProvinceName(rec)) && !Given(CountryName(rec))
    ensures Given(CountryName(rec)) ==> EndsWith(r, CountryName(rec).value)
    ensures Given(English(rec.city)) ==> StartsWith(r, English(rec.city).value)
  {
    var parts := Parts(English(rec.city), ProvinceName(rec), CountryName(rec));
    JoinRead(parts, ", ");
    Join(parts, ", ")
  }

  /**
   * The text built component by component: each given component is added,
   * after a `, ` when the text is not empty yet.
   */
  method ComposeLocation(city: Option<string>, province: Option<string>, country: Option<string>) returns (text: string)
    ensures text == Join(Parts(city, province, country), ", ")
  {
    var first: seq<string> := if Given(city) then [city.value] else [];
    var second := first + (if Given(province) then [province.value] else []);
    text := "";
    if Given(city) {
      text := city.value;
    }
    assert text == Join(first, ", ") && (|text| > 0 <==> first != []);
    if Given(province) {
      JoinSnoc(first, ", ", province.value);
      if |text| > 0 {
        text := text + ", ";
      }
      text := text + province.value;
    }
    assert text == Join(second, ", ") && (|text| > 0 <==> second != []);
    if Given(country) {
      JoinSnoc(second, ", ", country.value);
      if |text| > 0 {
        text := text + ", ";
      }
      text := text + country.value;
    }
    assert Parts(city, province, country) == second + (if Given(country) then [country.value] else []);
  }

  /**
   * The location text is empty exactly when no component is given; otherwise
   * it starts with the first component and ends with the last, so it never
   * begins or ends with the separator; and when no component holds a comma,
   * cutting it at `, ` gives the components back.
   */
  lemma {:induction false} LocationTextRead(city: Option<string>, province: Option<string>, country: Option<string>)
    ensures var parts := Parts(city, province, country);
      && (Join(parts, ", ") == "" <==> parts == [])
      && (parts != [] ==> StartsWith(Join(parts, ", "), parts[0]) && EndsWith(Join(parts, ", "), parts[|parts| - 1]))
      && (parts != [] && (forall k :: 0 <= k < |parts| ==> ',' !in parts[k]) ==> Split(Join(parts, ", "), ", ") == parts)
  {
    var parts := Parts(city, province, country);
    assert forall k :: 0 <= k < |parts| ==> parts[k] != [];
    CommaSeparator();
    JoinRead(parts, ", ");
  }

  /** Proof aid on literal strings only: the separator of a location text starts with a comma. */
  lemma CommaSeparator()
    ensures ", " != [] && ", "[0] == ','
  {
  }

  /**
   * Non-empty pieces join to nothing exactly when there are none; otherwise
   * the text starts with the first piece and ends with the last, and splits
   * back into the pieces when none holds the separator's first element.
   */
  lemma JoinRead<T>(parts: seq<seq<T>>, sep: seq<T>)
    requires sep != [] && forall k :: 0 <= k < |parts| ==> parts[k] != []
    ensures Join(parts, sep) == [] <==> parts == []
    ensures parts != [] ==> StartsWith(Join(parts, sep), parts[0]) && EndsWith(Join(parts, sep), parts[|parts| - 1])
    ensures parts != [] && (forall k :: 0 <= k < |parts| ==> sep[0] !in parts[k]) ==> Split(Join(parts, sep), sep) == parts
  {
    if parts != [] {
      JoinBounds(parts, sep);
      assert |parts[0]| > 0;
      if forall k :: 0 <= k < |parts| ==> sep[0] !in parts[k] {
        forall k | 0 <= k < |parts| ensures Avoids(parts[k], sep) {
          assert sep[0] !in parts[k];
        }
        SplitJoin(parts, sep);
      }
    }
  }

  // ---------------------------------------------------------------------------
  // Collecting without repeats

  /** The list with each value kept at its first occurrence only. */
  function Unique<T(==)>(xs: seq<T>): seq<T>
    decreases |xs|
  {
    if xs == [] then []
    else
      var u := Unique(xs[..|xs| - 1]);
      if xs[|xs| - 1] in u then u else u + [xs[|xs| - 1]]
  }

  /** Where `x` first occurs in `xs`, or `|xs|` when it does not. */
  function IndexOf<T(==)>(xs: seq<T>, x: T): (r: nat)
    ensures r <= |xs|
    ensures r < |xs| <==> x in xs
    ensures r < |xs| ==> xs[r] == x
    ensures forall k :: 0 <= k < r ==> xs[k] != x
    decreases |xs|
  {
    if xs == [] then 0 else if xs[0] == x then 0 else 1 + IndexOf(xs[1..], x)
  }

  /** A value of a list is first found at the same place after the list grows at its end. */
  lemma IndexOfGrown<T>(xs: seq<T>, z: T, x: T)
    requires x in xs
    ensures IndexOf(xs + [z], x) == IndexOf(xs, x)
  {
    var i, j := IndexOf(xs, x), IndexOf(xs + [z], x);
    assert (xs + [z])[i] == x;
    if j < i {
      assert xs[j] == (xs + [z])[j];
    }
  }

  /** The collected list holds no repeats, holds exactly the values of the input, and is no longer than it. */
  lemma {:induction false} UniqueMembers<T>(xs: seq<T>)
    ensures Distinct(Unique(xs))
    ensures forall x :: x in Unique(xs) <==> x in xs
    ensures |Unique(xs)| <= |xs|
    decreases |xs|
  {
    if xs != [] {
      var init := xs[..|xs| - 1];
      UniqueMembers(init);
      assert xs == init + [xs[|xs| - 1]];
    }
  }

  /** The collected values keep the order of their first occurrences in the input. */
  lemma {:induction false} UniqueOrder<T>(xs: seq<T>)
    ensures forall i, j :: 0 <= i < j < |Unique(xs)| ==> IndexOf(xs, Unique(xs)[i]) < IndexOf(xs, Unique(xs)[j])
    decreases |xs|
  {
    if xs != [] {
      var init := xs[..|xs| - 1];
      var last := xs[|xs| - 1];
      var u0 := Unique(init);
      UniqueOrder(init);
      UniqueMembers(init);
      assert xs == init + [last];
      forall y | y in init ensures IndexOf(xs, y) == IndexOf(init, y) {
        IndexOfGrown(init, last, y);
      }
      var u := Unique(xs);
      assert u == if last in u0 then u0 else u0 + [last];
      forall i, j | 0 <= i < j < |u| ensures IndexOf(xs, u[i]) < IndexOf(xs, u[j]) {
        assert u[i] == u0[i] && u0[i] in u0;
        assert IndexOf(xs, u[i]) == IndexOf(init, u[i]) < |init|;
        if j < |u0| {
          assert u[j] == u0[j] && u0[j] in u0;
          assert IndexOf(xs, u[j]) == IndexOf(init, u[j]);
        } else {
          assert u[j] == last && last !in init;
          assert forall k :: 0 <= k < |init| ==> xs[k] == init[k];
        }
      }
    }
  }

  // ---------------------------------------------------------------------------
  // One result per address, stopping at the first failure

  /** `f` applied to each address in order: the first failure, or all the values. */
  function MapAll<T>(ips: seq<string>, f: string -> Result<T>): Result<seq<T>>
    decreases |ips|
  {
    if ips == [] then Ok([])
    else
      match MapAll(ips[..|ips| - 1], f)
      case Ok(vs) =>
        (match f(ips[|ips| - 1])
         case Ok(v) => Ok(vs + [v])
         case Exit(code) => Exit(code)
         case Raised(e) => Raised(e))
      case Exit(code) => Exit(code)
      case Raised(e) => Raised(e)
  }

  /** All the values exist exactly when every address gives one, and they come in the order of the addresses. */
  lemma {:induction false} MapAllOk<T>(ips: seq<string>, f: string -> Result<T>)
    ensures MapAll(ips, f).Ok? <==> forall i :: 0 <= i < |ips| ==> f(ips[i]).Ok?
    ensures MapAll(ips, f).Ok? ==>
      |MapAll(ips, f).value| == |ips| && forall i :: 0 <= i < |ips| ==> f(ips[i]) == Ok(MapAll(ips, f).value[i])
    decreases |ips|
  {
    if ips != [] {
      var init := ips[..|ips| - 1];
      MapAllOk(init, f);
      assert forall i :: 0 <= i < |init| ==> init[i] == ips[i];
    }
  }

  /** A failure is the failure of the first address that gives no value. */
  lemma {:induction false} MapAllFirstFailure<T>(ips: seq<string>, f: string -> Result<T>)
    requires !MapAll(ips, f).Ok?
    ensures exists j ::
      && 0 <= j < |ips|
      && (forall i :: 0 <= i < j ==> f(ips[i]).Ok?)
      && !f(ips[j]).Ok?
      && MapAll(ips, f) == Failed(f(ips[j]))
    decreases |ips|
  {
    var init := ips[..|ips| - 1];
    var n := |ips| - 1;
    if MapAll(init, f).Ok? {
      MapAllOk(init, f);
      assert forall i :: 0 <= i < n ==> init[i] == ips[i];
      assert (forall i :: 0 <= i < n ==> f(ips[i]).Ok?) && !f(ips[n]).Ok?;
    } else {
      MapAllFirstFailure(init, f);
      var j :| && 0 <= j < |init|
               && (forall i :: 0 <= i < j ==> f(init[i]).Ok?)
               && !f(init[j]).Ok?
               && MapAll(init, f) == Failed(f(init[j]));
      assert forall i :: 0 <= i <= j ==> init[i] == ips[i];
      assert (forall i :: 0 <= i < j ==> f(ips[i]).Ok?) && !f(ips[j]).Ok?;
    }
  }

  /** Once a prefix of the addresses fails, so do all of them. */
  lemma {:induction false} MapAllStop<T>(ips: seq<string>, k: nat, f: string -> Result<T>)
    requires k <= |ips| && !MapAll(ips[..k], f).Ok?
    ensures MapAll(ips, f) == MapAll(ips[..k], f)
    decreases |ips| - k
  {
    if k < |ips| {
      assert ips[..k + 1][..k] == ips[..k];
      MapAllStop(ips, k + 1, f);
    } else {
      assert ips[..k] == ips;
    }
  }

  /** One more address that succeeds extends the list of results by its value. */
  lemma MapAllStep<T>(ips: seq<string>, i: nat, f: string -> Result<T>, vs: seq<T>, v: T)
    requires i < |ips| && MapAll(ips[..i], f) == Ok(vs) && f(ips[i]) == Ok(v)
    ensures MapAll(ips[..i + 1], f) == Ok(vs + [v])
  {
    assert ips[..i + 1][..i] == ips[..i];
  }

  // ---------------------------------------------------------------------------
  // get_info

  /** The location text of one address; an address the database does not hold raises `TypeError`. */
  function InfoOf(lookup: Lookup, ip: string): Result<string> {
    match lookup(ip)
    case None => Raised(TypeError)
    case Some(rec) => Ok(LocationText(rec))
  }

  function Locate(lookup: Lookup): string -> Result<string> {
    ip => InfoOf(lookup, ip)
  }

  /** What `get_info` returns: the distinct location texts, or the failure of the first unknown address. */
  function Info(lookup: Lookup, ips: seq<string>): (r: Result<seq<string>>)
    ensures r.Ok? ==> Distinct(r.value) && |r.value| <= |ips|
  {
    match MapAll(ips, Locate(lookup))
    case Ok(texts) => UniqueMembers(texts); MapAllOk(ips, Locate(lookup)); Ok(Unique(texts))
    case Exit(code) => Exit(code)
    case Raised(e) => Raised(e)
  }

  /**
   * The location text `get_info` composes for one record: the country from
   * the first of `country`, `registered_country` and `continent` with an
   * English name, the province from the first subdivision, the city.
   */
  method RecordLocation(rec: Record) returns (text: string)
    ensures text == LocationText(rec)
  {
    var city: Option<string> := None;
    var province: Option<string> := None;
    var country: Option<string> := None;
    if rec.country.Some? && "en" in rec.country.value {
      country := Some(rec.country.value["en"]);
    } else if rec.registeredCountry.Some? && "en" in rec.registeredCountry.value {
      country := Some(rec.registeredCountry.value["en"]);
    } else if rec.continent.Some? && "en" in rec.continent.value {
      country := Some(rec.continent.value["en"]);
    }
    if rec.subdivisions.Some? && |rec.subdivisions.value| > 0 && "en" in rec.subdivisions.value[0] {
      province := Some(rec.subdivisions.value[0]["en"]);
    }
    if rec.city.Some? && "en" in rec.city.value {
      city := Some(rec.city.value["en"]);
    }
    text := ComposeLocation(city, province, country);
  }

  /** `get_info`: look each address up, compose its location text, and keep the texts not seen before. */
  method GetInfo(lookup: Lookup, ips: seq<string>) returns (r: Result<seq<string>>)
    ensures r == Info(lookup, ips)
  {
    var locations: seq<string> := [];
    ghost var texts: seq<string> := [];
    for i := 0 to |ips|
      invariant MapAll(ips[..i], Locate(lookup)) == Ok(texts)
      invariant locations == Unique(texts)
    {
      assert ips[..i + 1][..i] == ips[..i];
      var location := lookup(ips[i]);
      if location.None? {
        MapAllStop(ips, i + 1, Locate(lookup));
        return Raised(TypeError);
      }
      var text := RecordLocation(location.value);
      MapAllStep(ips, i, Locate(lookup), texts, text);
      assert (texts + [text])[..|texts|] == texts;
      if text !in locations {
        locations := locations + [text];
      }
      texts := texts + [text];
    }
    assert ips[..|ips|] == ips;
    return Ok(locations);
  }

  /**
   * `get_info` fails exactly when some address is unknown, with `TypeError`;
   * otherwise its list holds no repeats, is no longer than the input, holds
   * exactly the location texts of the addresses, and keeps the order in
   * which they first appear.
   */
  lemma InfoListed(lookup: Lookup, ips: seq<string>)
    ensures Info(lookup, ips).Ok? <==> forall i :: 0 <= i < |ips| ==> lookup(ips[i]).Some?
    ensures !Info(lookup, ips).Ok? ==> Info(lookup, ips) == Raised(TypeError)
    ensures Info(lookup, ips).Ok? ==>
      var locs := Info(lookup, ips).value;
      var texts := MapAll(ips, Locate(lookup)).value;
      && |texts| == |ips|
      && (forall i :: 0 <= i < |ips| ==> texts[i] == LocationText(lookup(ips[i]).value))
      && (forall x :: x in locs <==> x in texts)
      && (forall i, j :: 0 <= i < j < |locs| ==> IndexOf(texts, locs[i]) < IndexOf(texts, locs[j]))
  {
    var f := Locate(lookup);
    MapAllOk(ips, f);
    assert forall i :: 0 <= i < |ips| ==> (f(ips[i]).Ok? <==> lookup(ips[i]).Some?);
    if MapAll(ips, f).Ok? {
      UniqueMembers(MapAll(ips, f).value);
      UniqueOrder(MapAll(ips, f).value);
    } else {
      MapAllFirstFailure(ips, f);
    }
  }

  // ---------------------------------------------------------------------------
  // search_database and get_geo_information

  /** A name followed by `, `, or nothing when it is missing. */
  function Labelled(name: Option<string>): string {
    if name.Some? then name.value + ", " else ""
  }

  /**
   * What `search_database` returns for one address: the city and `, `, the
   * first subdivision and `, `, then the country, each only when it has an
   * English name. An unknown address raises `TypeError`, and an empty
   * subdivision list `IndexError`.
   */
  function SearchResult(lookup: Lookup, ip: string): (r: Result<string>)
    ensures r == Raised(TypeError) <==> lookup(ip).None?
    ensures r.Ok? || r == Raised(TypeError) || r == Raised(IndexError)
  {
    match lookup(ip)
    case None => Raised(TypeError)
    case Some(rec) =>
      if rec.subdivisions.Some? && |rec.subdivisions.value| == 0 then Raised(IndexError)
      else
        var subdivision := if rec.subdivisions.Some? then English(Some(rec.subdivisions.value[0])) else None;
        var country := English(rec.country);
        Ok(Labelled(English(rec.city)) + Labelled(subdivision) + (if country.Some? then country.value else ""))
  }

  /** `search_database`: the location text grown field by field. */
  method SearchDatabase(lookup: Lookup, ip: string) returns (r: Result<string>)
    ensures r == SearchResult(lookup, ip)
  {
    var location := "";
    var response := lookup(ip);
    if response.None? {
      return Raised(TypeError);
    }
    var rec := response.value;
    if rec.city.Some? && "en" in rec.city.value {
      location := location + rec.city.value["en"] + ", ";
    }
    assert location == Labelled(English(rec.city));
    ghost var subdivision: Option<string> := None;
    if rec.subdivisions.Some? {
      if |rec.subdivisions.value| == 0 {
        return Raised(IndexError);
      }
      subdivision := English(Some(rec.subdivisions.value[0]));
      if "en" in rec.subdivisions.value[0] {
        location := location + rec.subdivisions.value[0]["en"] + ", ";
      }
    }
    assert location == Labelled(English(rec.city)) + Labelled(subdivision);
    if rec.country.Some? && "en" in rec.country.value {
      location := location + rec.country.value["en"];
    } else {
      assert location == location + "";
    }
    assert SearchResult(lookup, ip) == Ok(location);
    return Ok(location);
  }

  /**
   * The shape of a location found by `search_database`: it starts with the
   * city and its separator, ends with the country when there is one, and
   * ends with a dangling `, ` when the country is missing but a city or
   * subdivision is there; a record with none of the three gives "".
   */
  lemma SearchLayout(lookup: Lookup, ip: string, rec: Record)
    requires lookup(ip) == Some(rec)
    requires rec.subdivisions.Some? ==> |rec.subdivisions.value| > 0
    ensures SearchResult(lookup, ip).Ok?
    ensures var t := SearchResult(lookup, ip).value;
      var subdivision := if rec.subdivisions.Some? then English(Some(rec.subdivisions.value[0])) else None;
      && (English(rec.city).Some? ==> StartsWith(t, English(rec.city).value + ", "))
      && (English(rec.country).Some? ==> EndsWith(t, English(rec.country).value))
      && (English(rec.country).None? && (English(rec.city).Some? || subdivision.Some?) ==> EndsWith(t, ", "))
      && (English(rec.city).None? && subdivision.None? && English(rec.country).None? ==> t == "")
  {
    var subdivision := if rec.subdivisions.Some? then English(Some(rec.subdivisions.value[0])) else None;
    var head := Labelled(English(rec.city));
    var mid := Labelled(subdivision);
    var tail := if English(rec.country).Some? then English(rec.country).value else "";
    var t := head + mid + tail;
    assert SearchResult(lookup, ip) == Ok(t);
    assert t == head + (mid + tail);
    assert t[..|head|] == head;
    assert t[|t| - |tail|..] == tail;
    if English(rec.country).None? {
      assert t == head + mid;
      if mid != "" {
        assert t[|t| - |mid|..] == mid;
        assert mid[|mid| - 2..] == ", ";
        assert t[|t| - 2..] == mid[|mid| - 2..];
      } else if head != "" {
        assert t == head;
        assert head[|head| - 2..] == ", ";
      }
    }
  }

  /**
   * When city, first subdivision and country all have non-empty English
   * names, `search_database` and `get_info` compose the same text.
   */
  lemma SearchAgreesWithInfo(lookup: Lookup, ip: string, rec: Record)
    requires lookup(ip) == Some(rec)
    requires rec.subdivisions.Some? && |rec.subdivisions.value| > 0
    requires Given(English(rec.city)) && Given(English(Some(rec.subdivisions.value[0]))) && Given(English(rec.country))
    ensures SearchResult(lookup, ip) == Ok(LocationText(rec))
  {
    var c, p, k := English(rec.city).value, English(Some(rec.subdivisions.value[0])).value, English(rec.country).value;
    assert Parts(English(rec.city), ProvinceName(rec), CountryName(rec)) == [c, p, k];
    assert Join([c, p, k], ", ") == c + ", " + (p + ", " + k) by {
      assert [c, p, k][1..] == [p, k];
      assert [p, k][1..] == [k];
      assert Join([k], ", ") == k;
      assert Join([p, k], ", ") == p + ", " + k;
    }
    assert SearchResult(lookup, ip) == Ok(c + ", " + (p + ", ") + k);
    assert c + ", " + (p + ", ") + k == c + ", " + (p + ", " + k);
  }

  function Search(lookup: Lookup): string -> Result<string> {
    ip => SearchResult(lookup, ip)
  }

  /** What `get_geo_information` returns: the distinct locations, or the failure of the first address that fails. */
  function GeoInformation(lookup: Lookup, ips: seq<string>): (r: Result<seq<string>>)
    ensures r.Ok? ==> Distinct(r.value) && |r.value| <= |ips|
  {
    match MapAll(ips, Search(lookup))
    case Ok(found) => UniqueMembers(found); MapAllOk(ips, Search(lookup)); Ok(Unique(found))
    case Exit(code) => Exit(code)
    case Raised(e) => Raised(e)
  }

  /** `get_geo_information`: search each address and keep the locations not seen before. */
  method GetGeoInformation(lookup: Lookup, ips: seq<string>) returns (r: Result<seq<string>>)
    ensures r == GeoInformation(lookup, ips)
  {
    var locations: seq<string> := [];
    ghost var found: seq<string> := [];
    for i := 0 to |ips|
      invariant MapAll(ips[..i], Search(lookup)) == Ok(found)
      invariant locations == Unique(found)
    {
      assert ips[..i + 1][..i] == ips[..i];
      var ipLocation := SearchDatabase(lookup, ips[i]);
      if !ipLocation.Ok? {
        MapAllStop(ips, i + 1, Search(lookup));
        return Failed(ipLocation);
      }
      if ipLocation.value !in locations {
        locations := locations + [ipLocation.value];
      }
      found := found + [ipLocation.value];
    }
    assert ips[..|ips|] == ips;
    return Ok(locations);
  }

  /**
   * `get_geo_information` either fails as the first failing address does,
   * or returns a list without repeats, no longer than the input, in which
   * every element is the location of some address and every address's
   * location appears, in the order of first appearance.
   */
  lemma GeoInformationListed(lookup: Lookup, ips: seq<string>)
    ensures !GeoInformation(lookup, ips).Ok? ==> exists j ::
      && 0 <= j < |ips|
      && (forall i :: 0 <= i < j ==> SearchResult(lookup, ips[i]).Ok?)
      && !SearchResult(lookup, ips[j]).Ok?
      && GeoInformation(lookup, ips) == Failed(SearchResult(lookup, ips[j]))
    ensures GeoInformation(lookup, ips).Ok? ==>
      var locs := GeoInformation(lookup, ips).value;
      && (forall i :: 0 <= i < |ips| ==> SearchResult(lookup, ips[i]).Ok? && SearchResult(lookup, ips[i]).value in locs)
      && (forall x :: x in locs ==> exists i :: 0 <= i < |ips| && SearchResult(lookup, ips[i]) == Ok(x))
      && (forall i, j :: 0 <= i < j < |locs| ==>
            IndexOf(MapAll(ips, Search(lookup)).value, locs[i]) < IndexOf(MapAll(ips, Search(lookup)).value, locs[j]))
  {
    var f := Search(lookup);
    MapAllOk(ips, f);
    if MapAll(ips, f).Ok? {
      var found := MapAll(ips, f).value;
      UniqueMembers(found);
      UniqueOrder(found);
      forall x | x in Unique(found) ensures exists i :: 0 <= i < |ips| && SearchResult(lookup, ips[i]) == Ok(x) {
        var i := IndexOf(found, x);
        assert f(ips[i]) == Ok(found[i]);
      }
    } else {
      MapAllFirstFailure(ips, f);
      var j :| && 0 <= j < |ips|
               && (forall i :: 0 <= i < j ==> f(ips[i]).Ok?)
               && !f(ips[j]).Ok?
               && MapAll(ips, f) == Failed(f(ips[j]));
      assert GeoInformation(lookup, ips) == Failed(SearchResult(lookup, ips[j]));
    }
  }
}
