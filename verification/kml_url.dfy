/** How a card finds the KML for a layer (card.py `GetKmlUrl`) and how it
    strips query parameters from a URL (`RemoveParamsFromUrl`). URL encoding
    and query parsing are library code; the model stops at the list of
    query pairs that would be encoded. */
module KmlUrl {
  import opened Common
  import opened PyText

  /** The layer types the map format knows; every other type value, and a
      missing one, is `OtherLayer`. */
  datatype LayerType = Kml | GeoRss | GoogleSpreadsheet | GeoJson | Csv | OtherLayer

  /** The source record of a layer. The url may be missing; every other field
      is a string, with "" standing for a missing field (both are falsy and
      are treated alike). */
  datatype Source = Source(
    url: Option<string>,
    latitudeField: string,
    longitudeField: string,
    iconUrlTemplate: string,
    colorTemplate: string,
    hotspotTemplate: string,
    titleTemplate: string,
    descriptionTemplate: string,
    condition0: string,
    condition1: string,
    condition2: string)

  /** A layer: its type and the values of its `source` dictionary. */
  datatype Layer = Layer(layerType: LayerType, sources: seq<Source>)

  /** Either the layer's own feed URL, or a call to the kmlify service under
      `rootUrl + "/.kmlify?"` with the given query pairs. */
  datatype KmlLocation = Direct(url: string) | Kmlify(rootUrl: string, query: seq<(string, string)>)

  const EmptySource := Source(None, "", "", "", "", "", "", "", "", "", "")

  /** The published-CSV address template; `$key` marks where the key goes. */
  const SpreadsheetCsvTemplate := "https://docs.google.com/spreadsheet/pub?key=$key&output=csv"

  /** The position of the `$key` placeholder in the template. */
  const KeyAt := 44

  /** The published-CSV address of a spreadsheet with the given key: the
      template with its one `$key` placeholder replaced by the key. */
  function SpreadsheetCsvUrl(key: string): (u: string)
    ensures SpreadsheetCsvTemplate[KeyAt..KeyAt + 4] == "$key"
    ensures u == SpreadsheetCsvTemplate[..KeyAt] + key + SpreadsheetCsvTemplate[KeyAt + 4..]
    ensures |u| == |SpreadsheetCsvTemplate| - 4 + |key| && u[KeyAt..KeyAt + |key|] == key
  {
    assert SpreadsheetCsvTemplate[..KeyAt] == "https://docs.google.com/spreadsheet/pub?key=";
    assert SpreadsheetCsvTemplate[KeyAt + 4..] == "&output=csv";
    "https://docs.google.com/spreadsheet/pub?key=" + key + "&output=csv"
  }

  /** The first value of the source dictionary, or an empty source. */
  function SourceOf(layer: Layer): Source
  {
    if layer.sources == [] then EmptySource else layer.sources[0]
  }

  predicate Supported(t: LayerType)
  {
    t != OtherLayer
  }

  /** Keeps the pairs whose value is non-empty, in order. */
  function NonEmptyPairs(ps: seq<(string, string)>): (r: seq<(string, string)>)
    ensures |r| <= |ps|
    ensures forall i :: 0 <= i < |r| ==> r[i].1 != ""
  {
    if ps == [] then []
    else if ps[0].1 == "" then NonEmptyPairs(ps[1..])
    else [ps[0]] + NonEmptyPairs(ps[1..])
  }

  lemma {:induction false} NonEmptyPairsMembers(ps: seq<(string, string)>, p: (string, string))
    ensures p in NonEmptyPairs(ps) <==> p in ps && p.1 != ""
  {
    if ps != [] {
      NonEmptyPairsMembers(ps[1..], p);
      assert ps == [ps[0]] + ps[1..];
    }
  }

  lemma {:induction false} NonEmptyPairsAppend(a: seq<(string, string)>, b: seq<(string, string)>)
    ensures NonEmptyPairs(a + b) == NonEmptyPairs(a) + NonEmptyPairs(b)
  {
    if a == [] {
      assert a + b == b;
    } else {
      assert (a + b)[1..] == a[1..] + b;
      NonEmptyPairsAppend(a[1..], b);
    }
  }

  /** The `loc` parameter: the latitude field alone when both fields name the
      same column, else both joined by a comma. */
  function LocParam(lat: string, lon: string): string
  {
    if lat == lon then lat else lat + "," + lon
  }

  /** The query pairs before empty values are dropped; None when a CSV-like
      layer lacks a latitude or longitude field. */
  function KmlifyParams(t: LayerType, src: Source, url: string): (r: Option<seq<(string, string)>>)
    requires t == GoogleSpreadsheet || t == GeoJson || t == Csv
    ensures r.None? <==> t != GeoJson && (src.latitudeField == "" || src.longitudeField == "")
    ensures r.Some? ==> |r.value| > 0 && r.value[0] == ("url", url)
  {
    var tail := [("name", src.titleTemplate), ("desc", src.descriptionTemplate),
                 ("cond", src.condition0), ("cond", src.condition1), ("cond", src.condition2)];
    if t == GeoJson then
      Some([("url", url), ("type", "geojson")] + tail)
    else if src.latitudeField == "" || src.longitudeField == "" then
      None
    else
      Some([("url", url), ("type", "csv"),
            ("loc", LocParam(src.latitudeField, src.longitudeField)),
            ("icon", src.iconUrlTemplate), ("color", src.colorTemplate),
            ("hotspot", src.hotspotTemplate)] + tail)
  }

  /** GetKmlUrl. `spreadsheetKey` stands for the regular-expression search
      that extracts the key of a spreadsheet URL (None when it does not
      match). Searching a missing spreadsheet url raises TypeError. */
  function GetKmlUrl(rootUrl: string, layer: Layer, spreadsheetKey: string -> Option<string>)
    : (r: Result<Option<KmlLocation>>)
    ensures r.Raised? <==> layer.layerType == GoogleSpreadsheet && SourceOf(layer).url.None?
    ensures !Supported(layer.layerType) ==> r == Ok(None)
    ensures r.Ok? && r.value.Some? && r.value.value.Kmlify? ==>
              r.value.value.rootUrl == rootUrl &&
              forall i :: 0 <= i < |r.value.value.query| ==> r.value.value.query[i].1 != ""
    ensures r.Ok? && r.value.Some? && r.value.value.Direct? ==>
              (layer.layerType == Kml || layer.layerType == GeoRss) && r.value.value.url != ""
  {
    var t := layer.layerType;
    var src := SourceOf(layer);
    if !Supported(t) then Ok(None)
    else if t == Kml || t == GeoRss then
      Ok(if src.url.Some? && src.url.value != "" then Some(Direct(src.url.value)) else None)
    else if t == GoogleSpreadsheet && src.url.None? then
      Raised("TypeError")
    else
      var url :=
        if t == GoogleSpreadsheet then
          (match spreadsheetKey(src.url.value)
           case Some(key) => SpreadsheetCsvUrl(key)
           case None => "")
        else src.url.GetOr("");
      if url == "" then Ok(None)
      else
        match KmlifyParams(t, src, url)
        case None => Ok(None)
        case Some(ps) => Ok(Some(Kmlify(rootUrl, NonEmptyPairs(ps))))
  }

  /** The URL handed to kmlify: the layer's own url, or for a spreadsheet the
      published-CSV address of its key. */
  function FeedUrl(layer: Layer, spreadsheetKey: string -> Option<string>): string
    requires layer.layerType != GoogleSpreadsheet || SourceOf(layer).url.Some?
  {
    var src := SourceOf(layer);
    if layer.layerType == GoogleSpreadsheet then
      (match spreadsheetKey(src.url.value)
       case Some(key) => SpreadsheetCsvUrl(key)
       case None => "")
    else src.url.GetOr("")
  }

  /** KML and GeoRSS layers are fetched directly from their url; an empty or
      missing url gives nothing. */
  lemma FeedLayersAreDirect(rootUrl: string, layer: Layer, spreadsheetKey: string -> Option<string>)
    requires layer.layerType == Kml || layer.layerType == GeoRss
    ensures var u := SourceOf(layer).url;
            GetKmlUrl(rootUrl, layer, spreadsheetKey) ==
              Ok(if u.Some? && u.value != "" then Some(Direct(u.value)) else None)
  {
  }

  /** A CSV or spreadsheet layer without both a latitude and a longitude
      field gives nothing (or raises, for a spreadsheet with no url). */
  lemma MissingLocationFieldGivesNone(rootUrl: string, layer: Layer, spreadsheetKey: string -> Option<string>)
    requires layer.layerType == Csv || layer.layerType == GoogleSpreadsheet
    requires SourceOf(layer).latitudeField == "" || SourceOf(layer).longitudeField == ""
    ensures GetKmlUrl(rootUrl, layer, spreadsheetKey) != Ok(None) ==>
              GetKmlUrl(rootUrl, layer, spreadsheetKey) == Raised("TypeError")
  {
  }

  /** Whenever kmlify is used, the first query pair is the feed url, which is
      never empty. */
  lemma KmlifyStartsWithFeedUrl(rootUrl: string, layer: Layer, spreadsheetKey: string -> Option<string>)
    requires var r := GetKmlUrl(rootUrl, layer, spreadsheetKey); r.Ok? && r.value.Some? && r.value.value.Kmlify?
    ensures layer.layerType in {GoogleSpreadsheet, GeoJson, Csv}
    ensures FeedUrl(layer, spreadsheetKey) != ""
    ensures var q := GetKmlUrl(rootUrl, layer, spreadsheetKey).value.value.query;
            |q| > 0 && q[0] == ("url", FeedUrl(layer, spreadsheetKey))
  {
    var t := layer.layerType;
    var src := SourceOf(layer);
    var url := FeedUrl(layer, spreadsheetKey);
    assert Supported(t) && t != Kml && t != GeoRss;
    assert url != "";
    var ps := KmlifyParams(t, src, url).value;
    assert GetKmlUrl(rootUrl, layer, spreadsheetKey) == Ok(Some(Kmlify(rootUrl, NonEmptyPairs(ps))));
    assert ps == [ps[0]] + ps[1..];
    NonEmptyPairsCons(ps[0], ps[1..]);
  }

  /** A CSV layer with a non-empty url, or a spreadsheet layer whose url
      yields a key, that names both a latitude and a longitude field is
      served through kmlify, from the layer url or the spreadsheet's CSV
      address, with type csv. */
  lemma CsvLayerUsesKmlify(rootUrl: string, layer: Layer, spreadsheetKey: string -> Option<string>)
    requires var u := SourceOf(layer).url;
             (layer.layerType == Csv && u.Some? && u.value != "") ||
             (layer.layerType == GoogleSpreadsheet && u.Some? && spreadsheetKey(u.value).Some?)
    requires SourceOf(layer).latitudeField != "" && SourceOf(layer).longitudeField != ""
    ensures var r := GetKmlUrl(rootUrl, layer, spreadsheetKey);
            r.Ok? && r.value.Some? && r.value.value.Kmlify? && r.value.value.rootUrl == rootUrl
    ensures var u := SourceOf(layer).url.value;
            var q := GetKmlUrl(rootUrl, layer, spreadsheetKey).value.value.query;
            |q| > 0 && ("type", "csv") in q &&
            q[0] == ("url", if layer.layerType == Csv then u else SpreadsheetCsvUrl(spreadsheetKey(u).value))
  {
    var src := SourceOf(layer);
    var url := FeedUrl(layer, spreadsheetKey);
    assert url != "";
    var ps := KmlifyParams(layer.layerType, src, url).value;
    assert GetKmlUrl(rootUrl, layer, spreadsheetKey) == Ok(Some(Kmlify(rootUrl, NonEmptyPairs(ps))));
    assert ps == [ps[0]] + ps[1..];
    NonEmptyPairsCons(ps[0], ps[1..]);
    NonEmptyPairsMembers(ps, ("type", "csv"));
  }

  /** With every field set, a CSV layer sends all eleven pairs, in the order
      url, type, loc, icon, color, hotspot, name, desc and the three
      conditions. */
  lemma CsvQueryInOrder(rootUrl: string, layer: Layer, spreadsheetKey: string -> Option<string>)
    requires layer.layerType == Csv
    requires var src := SourceOf(layer);
             src.url.Some? && src.url.value != "" &&
             src.latitudeField != "" && src.longitudeField != "" &&
             src.iconUrlTemplate != "" && src.colorTemplate != "" && src.hotspotTemplate != "" &&
             src.titleTemplate != "" && src.descriptionTemplate != "" &&
             src.condition0 != "" && src.condition1 != "" && src.condition2 != ""
    ensures var src := SourceOf(layer);
            GetKmlUrl(rootUrl, layer, spreadsheetKey) == Ok(Some(Kmlify(rootUrl,
              [("url", src.url.value), ("type", "csv"),
               ("loc", if src.latitudeField == src.longitudeField then src.latitudeField
                       else src.latitudeField + "," + src.longitudeField),
               ("icon", src.iconUrlTemplate), ("color", src.colorTemplate),
               ("hotspot", src.hotspotTemplate), ("name", src.titleTemplate),
               ("desc", src.descriptionTemplate), ("cond", src.condition0),
               ("cond", src.condition1), ("cond", src.condition2)])))
  {
    var src := SourceOf(layer);
    var ps := KmlifyParams(Csv, src, src.url.value).value;
    assert GetKmlUrl(rootUrl, layer, spreadsheetKey) == Ok(Some(Kmlify(rootUrl, NonEmptyPairs(ps))));
    assert LocParam(src.latitudeField, src.longitudeField) != "";
    assert ps == [("url", src.url.value), ("type", "csv"),
                  ("loc", LocParam(src.latitudeField, src.longitudeField)),
                  ("icon", src.iconUrlTemplate), ("color", src.colorTemplate),
                  ("hotspot", src.hotspotTemplate), ("name", src.titleTemplate),
                  ("desc", src.descriptionTemplate), ("cond", src.condition0),
                  ("cond", src.condition1), ("cond", src.condition2)];
    NonEmptyPairsKeepsAll(ps);
  }

  lemma {:induction false} NonEmptyPairsKeepsAll(ps: seq<(string, string)>)
    requires forall i :: 0 <= i < |ps| ==> ps[i].1 != ""
    ensures NonEmptyPairs(ps) == ps
  {
    if ps != [] {
      NonEmptyPairsKeepsAll(ps[1..]);
    }
  }

  lemma NonEmptyPairsCons(p: (string, string), rest: seq<(string, string)>)
    requires p.1 != ""
    ensures NonEmptyPairs([p] + rest) == [p] + NonEmptyPairs(rest)
  {
    assert ([p] + rest)[1..] == rest;
  }

  /** A GeoJSON layer with a url asks kmlify for type geojson and never
      passes a location parameter. */
  lemma GeoJsonHasNoLoc(rootUrl: string, layer: Layer, spreadsheetKey: string -> Option<string>)
    requires layer.layerType == GeoJson
    requires SourceOf(layer).url.Some? && SourceOf(layer).url.value != ""
    ensures var r := GetKmlUrl(rootUrl, layer, spreadsheetKey);
            r.Ok? && r.value.Some? && r.value.value.Kmlify? &&
            ("type", "geojson") in r.value.value.query &&
            ("type", "csv") !in r.value.value.query &&
            forall i :: 0 <= i < |r.value.value.query| ==> r.value.value.query[i].0 != "loc"
  {
    var src := SourceOf(layer);
    var ps := KmlifyParams(GeoJson, src, src.url.value).value;
    NonEmptyPairsMembers(ps, ("type", "geojson"));
    NonEmptyPairsMembers(ps, ("type", "csv"));
    var q := NonEmptyPairs(ps);
    forall i | 0 <= i < |q| ensures q[i].0 != "loc" {
      NonEmptyPairsMembers(ps, q[i]);
    }
  }

  /** A CSV-like layer that reaches kmlify passes type csv and a location
      parameter built from its latitude and longitude fields. */
  lemma CsvLocParam(rootUrl: string, layer: Layer, spreadsheetKey: string -> Option<string>)
    requires var r := GetKmlUrl(rootUrl, layer, spreadsheetKey); r.Ok? && r.value.Some? && r.value.value.Kmlify?
    requires layer.layerType != GeoJson
    ensures var src := SourceOf(layer);
            src.latitudeField != "" && src.longitudeField != ""
    ensures var src := SourceOf(layer);
            var q := GetKmlUrl(rootUrl, layer, spreadsheetKey).value.value.query;
            ("type", "csv") in q &&
            ("loc", if src.latitudeField == src.longitudeField then src.latitudeField
                    else src.latitudeField + "," + src.longitudeField) in q
  {
    var src := SourceOf(layer);
    var ps := KmlifyParams(layer.layerType, src, FeedUrl(layer, spreadsheetKey)).value;
    NonEmptyPairsMembers(ps, ("type", "csv"));
    NonEmptyPairsMembers(ps, ("loc", LocParam(src.latitudeField, src.longitudeField)));
  }

  /** Template and condition fields that are empty are left out of the
      query; a non-empty one is passed. */
  lemma EmptyParamsDropped(rootUrl: string, layer: Layer, spreadsheetKey: string -> Option<string>)
    requires var r := GetKmlUrl(rootUrl, layer, spreadsheetKey); r.Ok? && r.value.Some? && r.value.value.Kmlify?
    ensures (("name", SourceOf(layer).titleTemplate) in GetKmlUrl(rootUrl, layer, spreadsheetKey).value.value.query)
              <==> SourceOf(layer).titleTemplate != ""
    ensures ("cond", "") !in GetKmlUrl(rootUrl, layer, spreadsheetKey).value.value.query
  {
    var src := SourceOf(layer);
    var ps := KmlifyParams(layer.layerType, src, FeedUrl(layer, spreadsheetKey)).value;
    NonEmptyPairsMembers(ps, ("name", src.titleTemplate));
    NonEmptyPairsMembers(ps, ("cond", ""));
  }

  /** A URL with some query parameters removed: `base + "?"` followed by the
      encoding of `pairs`. */
  datatype StrippedUrl = StrippedUrl(base: string, pairs: seq<(string, string)>)

  /** Keeps the pairs whose name is not in `names`, in order. */
  function WithoutNames(ps: seq<(string, string)>, names: set<string>): (r: seq<(string, string)>)
    ensures |r| <= |ps|
    ensures forall i :: 0 <= i < |r| ==> r[i].0 !in names
  {
    if ps == [] then []
    else if ps[0].0 in names then WithoutNames(ps[1..], names)
    else [ps[0]] + WithoutNames(ps[1..], names)
  }

  lemma {:induction false} WithoutNamesMembers(ps: seq<(string, string)>, names: set<string>, p: (string, string))
    ensures p in WithoutNames(ps, names) <==> p in ps && p.0 !in names
  {
    if ps != [] {
      WithoutNamesMembers(ps[1..], names, p);
      assert ps == [ps[0]] + ps[1..];
    }
  }

  /** Removing one set of names and then another is removing both at once. */
  lemma {:induction false} WithoutNamesTwice(ps: seq<(string, string)>, a: set<string>, b: set<string>)
    ensures WithoutNames(WithoutNames(ps, a), b) == WithoutNames(ps, a + b)
  {
    if ps != [] {
      WithoutNamesTwice(ps[1..], a, b);
    }
  }

  /** RemoveParamsFromUrl. `parseQuery` stands for the library query parser.
      Only the text between the first and the second `?` is read as the
      query; anything after a second `?` is lost. */
  function RemoveParamsFromUrl(url: string, names: set<string>,
                               parseQuery: string -> seq<(string, string)>): (r: StrippedUrl)
    ensures '?' !in r.base && r.base <= url
    ensures '?' !in url ==> r.base == url
    ensures '?' in url ==> r.base + "?" <= url
    ensures forall i :: 0 <= i < |r.pairs| ==> r.pairs[i].0 !in names
  {
    var parts := SplitFirstTwo(url, '?');
    StrippedUrl(parts.0, WithoutNames(parseQuery(parts.1), names))
  }

  /** The pairs kept are exactly the parsed pairs whose name was not
      removed. */
  lemma RemoveParamsKeepsOthers(url: string, names: set<string>, parseQuery: string -> seq<(string, string)>,
                                p: (string, string))
    ensures p in RemoveParamsFromUrl(url, names, parseQuery).pairs <==>
              p in parseQuery(SplitFirstTwo(url, '?').1) && p.0 !in names
  {
    WithoutNamesMembers(parseQuery(SplitFirstTwo(url, '?').1), names, p);
  }

  /** A parser that drops blank values, as `cgi.parse_qsl` does by default,
      leaves no blank value among the kept pairs either, so the kept pairs
      are ones `urlencode` and `parse_qsl` read back. */
  lemma KeptPairsHaveNoBlank(url: string, names: set<string>, parseQuery: string -> seq<(string, string)>)
    requires var parsed := parseQuery(SplitFirstTwo(url, '?').1);
             forall i :: 0 <= i < |parsed| ==> parsed[i].1 != ""
    ensures var kept := RemoveParamsFromUrl(url, names, parseQuery).pairs;
            forall i :: 0 <= i < |kept| ==> kept[i].1 != ""
  {
    var kept := RemoveParamsFromUrl(url, names, parseQuery).pairs;
    forall i | 0 <= i < |kept| ensures kept[i].1 != "" {
      WithoutNamesMembers(parseQuery(SplitFirstTwo(url, '?').1), names, kept[i]);
    }
  }

  /** Removing parameters from a URL that was itself produced by removing
      parameters removes both sets of names. The hypothesis is that the
      encoding of the kept pairs has no `?` and parses back to those pairs.
      `cgi.parse_qsl` drops blank values by default, so the kept pairs have
      none, and `urlencode` of pairs without blank values is read back. */
  lemma RemoveParamsTwice(url: string, a: set<string>, b: set<string>,
                          parseQuery: string -> seq<(string, string)>, encode: seq<(string, string)> -> string)
    requires var kept := RemoveParamsFromUrl(url, a, parseQuery).pairs;
             '?' !in encode(kept) && parseQuery(encode(kept)) == kept
    ensures var once := RemoveParamsFromUrl(url, a, parseQuery);
            RemoveParamsFromUrl(once.base + "?" + encode(once.pairs), b, parseQuery) ==
              RemoveParamsFromUrl(url, a + b, parseQuery)
  {
    var once := RemoveParamsFromUrl(url, a, parseQuery);
    var again := once.base + "?" + encode(once.pairs);
    var q := encode(once.pairs);
    CountAppend(once.base + "?", q, '?');
    CountAppend(once.base, "?", '?');
    assert Count("?", '?') == 1;
    SplitPairOfJoin(once.base, q, '?');
    assert SplitFirstTwo(again, '?') == (once.base, q);
    WithoutNamesTwice(parseQuery(SplitFirstTwo(url, '?').1), a, b);
  }
}
