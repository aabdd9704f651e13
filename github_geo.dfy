/** The geolocation cache of the GitHub enricher: `GitHubEnrich.geolocations`
    (location string -> point, loaded from the `github/geolocations` index when
    the enricher is attached to Elasticsearch), `location_not_found` (the
    locations the geocoder could not resolve), the cache-aside lookup
    `get_geo_point` and the bulk write-back `geo_locations_to_es`. */
module GitHubGeo {
  import opened Values
  import opened Seqs
  import Text

  /** A point `{"lat": .., "lon": ..}`; the coordinates are the geocoder's floats. */
  datatype GeoPoint = GeoPoint(lat: real, lon: real)

  /** What the geocoding service answers for one address:
      `Failed`: the reply was not JSON or had no first result (what the
      bare `except` around the parsing catches; a request that fails raises
      before it and is outside the model); `Blank`: the first result's
      `location` object is empty, hence falsy; `Found`: a `location` with
      `lat` and `lng`. */
  datatype GeoAnswer = Failed | Blank | Found(lat: real, lng: real)

  /** A document of the `github/geolocations` index: the point and its location. */
  datatype GeoDoc = GeoDoc(lat: real, lon: real, location: string)

  /** One entry of a `_bulk` request body: the `_id` of the action line and
      the document line that follows it. */
  datatype BulkEntry = BulkEntry(id: string, doc: GeoDoc)

  /** The cache: the dict of points with its keys in insertion order (Python
      dicts keep that order and `geo_locations_to_es` follows it) and the
      not-found list. */
  datatype GeoState = GeoState(geolocations: map<string, GeoPoint>, order: seq<string>, notFound: seq<string>)

  /** `order` lists each key of the dict exactly once, the not-found list has
      no repetition and no location is both resolved and unresolvable. */
  ghost predicate Wellformed(s: GeoState) {
    && NoDups(s.order)
    && (forall l :: l in s.geolocations <==> l in s.order)
    && NoDups(s.notFound)
    && (forall l :: l in s.notFound ==> l !in s.geolocations)
  }

  /** The outcome of one `get_geo_point` call: the new cache, the point
      returned and whether the geocoding service was called. */
  datatype Lookup = Lookup(state: GeoState, point: Option<GeoPoint>, called: bool)

  /** `get_geo_point(location)`, with the geocoding service as a parameter. */
  function GeoLookup(s: GeoState, location: Option<string>, geocoder: string -> GeoAnswer): (r: Lookup)
    requires Wellformed(s)
    ensures Wellformed(r.state)
    // the service is called exactly for a location that is neither cached nor known unresolvable
    ensures r.called <==> location.Some? && location.value !in s.geolocations && location.value !in s.notFound
    ensures !r.called ==> r.state == s
    ensures location.None? ==> r.point.None?
    ensures location.Some? && location.value in s.geolocations ==> r.point == Some(s.geolocations[location.value])
    ensures location.Some? && location.value in s.notFound ==> r.point.None?
    // a failed call records the location once, and nothing else changes
    ensures r.called && geocoder(location.value).Failed? ==>
      r.point.None? && r.state == s.(notFound := s.notFound + [location.value])
    // a resolved call caches the point under the location, `lng` becoming `lon`
    ensures r.called && geocoder(location.value).Found? ==>
      var p := GeoPoint(geocoder(location.value).lat, geocoder(location.value).lng);
      r.point == Some(p) && r.state == s.(geolocations := s.geolocations[location.value := p],
                                          order := s.order + [location.value])
    // an empty `location` object is neither cached nor recorded
    ensures r.called && geocoder(location.value).Blank? ==> r.point.None? && r.state == s
  {
    match location
    case None => Lookup(s, None, false)
    case Some(loc) =>
      if loc in s.geolocations then Lookup(s, Some(s.geolocations[loc]), false)
      else if loc in s.notFound then Lookup(s, None, false)
      else
        match geocoder(loc)
        case Failed =>
          var notFound := if loc !in s.notFound then s.notFound + [loc] else s.notFound;
          Lookup(s.(notFound := notFound), None, true)
        case Blank => Lookup(s, None, true)
        case Found(lat, lng) =>
          var p := GeoPoint(lat, lng);
          Lookup(s.(geolocations := s.geolocations[loc := p], order := s.order + [loc]), Some(p), true)
  }

  /** Cache-aside: once a location has been asked and answered (resolved or
      not), asking again does not call the service and gives the same point. */
  lemma {:induction false} AskedAtMostOnce(s: GeoState, loc: string, geocoder: string -> GeoAnswer)
    requires Wellformed(s)
    requires !geocoder(loc).Blank?
    ensures var first := GeoLookup(s, Some(loc), geocoder);
            var second := GeoLookup(first.state, Some(loc), geocoder);
            !second.called && second.point == first.point && second.state == first.state
  {
    var first := GeoLookup(s, Some(loc), geocoder);
    if first.called {
      if geocoder(loc).Failed? {
        assert loc in first.state.notFound;
      } else {
        assert first.state.geolocations[loc] == first.point.value;
      }
    }
  }

  /** The `_id` of a cached point: `"<lat>-<lon>-<location without its non-ASCII
      characters>"`. `show` is Python's `str` of a float. */
  function GeoId(p: GeoPoint, loc: string, show: real -> string): (id: string)
  {
    show(p.lat) + "-" + show(p.lon) + "-" + Text.AsciiOnly(loc)
  }

  /** The id ends with an ASCII form of the location, identical to it when the
      location is ASCII already. */
  lemma GeoIdShape(p: GeoPoint, loc: string, show: real -> string)
    ensures var id := GeoId(p, loc, show);
            var tail := id[|id| - |Text.AsciiOnly(loc)|..];
            Text.IsAscii(tail) && (Text.IsAscii(loc) ==> tail == loc)
  {
    Text.AsciiOnlyProperties(loc);
    var id := GeoId(p, loc, show);
    assert id[|id| - |Text.AsciiOnly(loc)|..] == Text.AsciiOnly(loc);
  }

  /** The bulk entry written for one cached location. */
  function EntryFor(loc: string, p: GeoPoint, show: real -> string): BulkEntry {
    BulkEntry(GeoId(p, loc, show), GeoDoc(p.lat, p.lon, loc))
  }

  /** The entries for `keys`, in that order. */
  function EntriesFor(keys: seq<string>, g: map<string, GeoPoint>, show: real -> string): (r: seq<BulkEntry>)
    requires forall k :: k in keys ==> k in g
    ensures |r| == |keys|
    ensures forall i :: 0 <= i < |keys| ==> r[i] == EntryFor(keys[i], g[keys[i]], show)
  {
    seq(|keys|, i requires 0 <= i < |keys| => EntryFor(keys[i], g[keys[i]], show))
  }

  function DocsOf(entries: seq<BulkEntry>): (r: seq<GeoDoc>)
    ensures |r| == |entries|
    ensures forall i :: 0 <= i < |entries| ==> r[i] == entries[i].doc
  {
    seq(|entries|, i requires 0 <= i < |entries| => entries[i].doc)
  }

  /** The cache rebuilt from stored documents (`get_github_cache("geolocations",
      "location")`): a later document for the same location overwrites the
      point but keeps the key's first position; the not-found list starts empty. */
  function Loaded(docs: seq<GeoDoc>): (s: GeoState)
    ensures Wellformed(s) && s.notFound == []
    decreases |docs|
  {
    if |docs| == 0 then GeoState(map[], [], [])
    else
      var prev := Loaded(docs[..|docs| - 1]);
      var d := docs[|docs| - 1];
      var order := if d.location in prev.geolocations then prev.order else prev.order + [d.location];
      GeoState(prev.geolocations[d.location := GeoPoint(d.lat, d.lon)], order, [])
  }

  /** The points of `g` under the keys listed in `keys`. */
  function Restrict(g: map<string, GeoPoint>, keys: seq<string>): map<string, GeoPoint>
    requires forall l :: l in keys ==> l in g
  {
    map l | l in keys :: g[l]
  }

  lemma RestrictSnoc(g: map<string, GeoPoint>, keys: seq<string>, loc: string)
    requires loc in g && forall l :: l in keys ==> l in g
    ensures Restrict(g, keys)[loc := g[loc]] == Restrict(g, keys + [loc])
  {
  }

  /** Loading one more document of a location not seen before appends it. */
  lemma LoadedStep(docs: seq<GeoDoc>, k: nat, g: map<string, GeoPoint>, keys: seq<string>)
    requires k < |docs| && |keys| == k
    requires forall l :: l in keys ==> l in g
    requires docs[k].location in g && docs[k].location !in keys
    requires docs[k] == GeoDoc(g[docs[k].location].lat, g[docs[k].location].lon, docs[k].location)
    requires Loaded(docs[..k]) == GeoState(Restrict(g, keys), keys, [])
    ensures Loaded(docs[..k + 1]) == GeoState(Restrict(g, keys + [docs[k].location]), keys + [docs[k].location], [])
  {
    assert docs[..k + 1][..k] == docs[..k];
    RestrictSnoc(g, keys, docs[k].location);
  }

  /** One more key of the written-out cache, loaded back. */
  lemma RoundTripStep(s: GeoState, docs: seq<GeoDoc>, k: nat)
    requires Wellformed(s) && k < |s.order|
    requires |docs| == |s.order|
    requires docs[k] == GeoDoc(s.geolocations[s.order[k]].lat, s.geolocations[s.order[k]].lon, s.order[k])
    requires Loaded(docs[..k]) == GeoState(Restrict(s.geolocations, s.order[..k]), s.order[..k], [])
    ensures Loaded(docs[..k + 1]) == GeoState(Restrict(s.geolocations, s.order[..k + 1]), s.order[..k + 1], [])
  {
    var loc := s.order[k];
    forall j | 0 <= j < k
      ensures s.order[..k][j] != loc
    {
      assert s.order[j] != s.order[k];
    }
    LoadedStep(docs, k, s.geolocations, s.order[..k]);
    SliceSnoc(s.order, k);
  }

  /** Writing the cache out and loading it back gives the same points under
      the same keys in the same order; only the not-found list is lost. */
  lemma {:induction false} PersistLoadRoundTrip(s: GeoState, show: real -> string)
    requires Wellformed(s)
    ensures Loaded(DocsOf(EntriesFor(s.order, s.geolocations, show))) == GeoState(s.geolocations, s.order, [])
  {
    var docs := DocsOf(EntriesFor(s.order, s.geolocations, show));
    for k := 0 to |s.order|
      invariant Loaded(docs[..k]) == GeoState(Restrict(s.geolocations, s.order[..k]), s.order[..k], [])
    {
      RoundTripStep(s, docs, k);
    }
    assert docs[..|s.order|] == docs;
    assert s.order[..|s.order|] == s.order;
    assert Restrict(s.geolocations, s.order) == s.geolocations;
  }

  /** The most entries one `_bulk` request carries. */
  function PackSize(maxItems: int): (n: nat)
  {
    if maxItems >= 1 then maxItems else 1
  }

  /** The enricher's mutable geolocation state. */
  class GeoCache {
    var geolocations: map<string, GeoPoint>
    var order: seq<string>
    var locationNotFound: seq<string>

    function State(): GeoState
      reads this
    {
      GeoState(geolocations, order, locationNotFound)
    }

    ghost predicate Valid()
      reads this
    {
      Wellformed(State())
    }

    /** `set_elastic`: the cache starts from the stored documents and the
        not-found list starts empty. */
    constructor (stored: seq<GeoDoc>)
      ensures Valid()
      ensures State() == Loaded(stored)
    {
      var cache: map<string, GeoPoint> := map[];
      var keys: seq<string> := [];
      for i := 0 to |stored|
        invariant GeoState(cache, keys, []) == Loaded(stored[..i])
      {
        var d := stored[i];
        assert stored[..i + 1][..i] == stored[..i];
        if d.location !in cache {
          keys := keys + [d.location];
        }
        cache := cache[d.location := GeoPoint(d.lat, d.lon)];
      }
      assert stored[..|stored|] == stored;
      geolocations, order, locationNotFound := cache, keys, [];
    }

    /** `get_geo_point`: the cached point, nothing for a known-unresolvable
        location, and otherwise one call to the geocoding service whose answer
        is cached or recorded as not found. */
    method GetGeoPoint(location: Option<string>, geocoder: string -> GeoAnswer) returns (point: Option<GeoPoint>)
      requires Valid()
      modifies this
      ensures Valid()
      ensures State() == GeoLookup(old(State()), location, geocoder).state
      ensures point == GeoLookup(old(State()), location, geocoder).point
    {
      point := None;
      if location.None? {
        return;
      }
      var loc := location.value;
      if loc in geolocations {
        var cached := geolocations[loc];
        point := Some(GeoPoint(cached.lat, cached.lon));
      } else if loc in locationNotFound {
        // do not call the service again
      } else {
        var answer := geocoder(loc);
        match answer
        case Failed =>
          if loc !in locationNotFound {
            locationNotFound := locationNotFound + [loc];
          }
        case Blank =>
        case Found(lat, lng) =>
          point := Some(GeoPoint(lat, lng));
          geolocations := geolocations[loc := point.value];
          order := order + [loc];
      }
    }

    /** `geo_locations_to_es`: every cached point is written exactly once, in
        the dict's order, in `_bulk` requests of at most `maxItems` entries;
        the last request is always sent, empty when the cache is empty. */
    method GeoLocationsToEs(maxItems: int, show: real -> string) returns (puts: seq<seq<BulkEntry>>)
      requires Valid()
      ensures |puts| >= 1
      ensures Flatten(puts) == EntriesFor(order, geolocations, show)
      ensures forall i :: 0 <= i < |puts| ==> |puts[i]| <= PackSize(maxItems)
      ensures maxItems >= 1 ==> forall i :: 0 <= i < |puts| - 1 ==> |puts[i]| == maxItems
      ensures maxItems >= 1 && |order| > 0 ==> |puts[|puts| - 1]| > 0
      ensures |order| == 0 ==> puts == [[]]
    {
      var current := 0;
      var pack: seq<BulkEntry> := [];
      puts := [];
      for i := 0 to |order|
        invariant Flatten(puts) + pack == EntriesFor(order[..i], geolocations, show)
        invariant current == |pack| <= PackSize(maxItems)
        invariant forall j :: 0 <= j < |puts| ==> |puts[j]| <= PackSize(maxItems)
        invariant maxItems >= 1 ==> forall j :: 0 <= j < |puts| ==> |puts[j]| == maxItems
        invariant maxItems >= 1 && i > 0 ==> |pack| > 0
        invariant i == 0 ==> puts == [] && pack == []
      {
        if current >= maxItems {
          FlattenSnoc(puts, pack);
          puts := puts + [pack];
          pack := [];
          current := 0;
        }
        var loc := order[i];
        assert order[..i + 1] == order[..i] + [loc];
        pack := pack + [EntryFor(loc, geolocations[loc], show)];
        current := current + 1;
      }
      FlattenSnoc(puts, pack);
      puts := puts + [pack];
      assert order[..|order|] == order;
    }
  }
}
