/** env/MapPropertySource.go: a named map of property values. The YAML and
    `.properties` sources embed it, so they behave as this type does once
    their text is parsed. */
module MapSources {
  import opened Wrappers

  datatype MapPropertySource = MapPropertySource(name: string, properties: map<string, string>)

  /** `MapPropertySourceOf(name)`: an empty source. */
  function MapPropertySourceOf(name: string): (s: MapPropertySource)
    ensures Name(s) == name
    ensures forall key :: !HasProperty(s, key)
  {
    MapPropertySource(name, map[])
  }

  /** `MapPropertySourceOfMap(name, source)`: a source over the given map. */
  function MapPropertySourceOfMap(name: string, source: map<string, string>): (s: MapPropertySource)
    ensures Name(s) == name && Properties(s) == source
  {
    MapPropertySource(name, source)
  }

  function Name(s: MapPropertySource): string {
    s.name
  }

  predicate HasProperty(s: MapPropertySource, key: string) {
    key in s.properties
  }

  /** `ContainsProperty` answers exactly as `HasProperty` does. */
  predicate ContainsProperty(s: MapPropertySource, key: string) {
    key in s.properties
  }

  /** `Property(key)`: the mapped value; a missing key is the panic
      "<name> has no <key>". */
  function Property(s: MapPropertySource, key: string): (r: Result<string>)
    ensures r.Success? <==> HasProperty(s, key)
    ensures HasProperty(s, key) ==> r.value == s.properties[key]
    ensures !HasProperty(s, key) ==> r == Failure(Panic(s.name + " has no " + key))
  {
    if key in s.properties then Success(s.properties[key])
    else Failure(Panic(s.name + " has no " + key))
  }

  /** `SetProperty(key, value)`: `key` now maps to `value`, nothing else
      changes. */
  function SetProperty(s: MapPropertySource, key: string, value: string): (r: MapPropertySource)
    ensures Property(r, key) == Success(value)
    ensures forall k :: k != key ==> Property(r, k) == Property(s, k)
    ensures Name(r) == Name(s)
  {
    s.(properties := s.properties[key := value])
  }

  /** `Properties()`: the current map. Never nil, so a map source is
      enumerable. */
  function Properties(s: MapPropertySource): map<string, string> {
    s.properties
  }

  /** `SetProperties(properties)`: the whole map is replaced. */
  function SetProperties(s: MapPropertySource, properties: map<string, string>): (r: MapPropertySource)
    ensures Properties(r) == properties
    ensures forall k :: HasProperty(r, k) <==> k in properties
    ensures Name(r) == Name(s)
  {
    s.(properties := properties)
  }

  /** `HasProperty` and `ContainsProperty` agree, and a key is present
      exactly when `Property` yields a value for it. */
  lemma HasPropertyAgreement(s: MapPropertySource, key: string)
    ensures ContainsProperty(s, key) <==> HasProperty(s, key)
    ensures HasProperty(s, key) <==> Property(s, key).Success?
  {
  }

  /** The case of the map-source tests: a value set later is read back,
      earlier values stay. */
  lemma SetPropertyExample()
    ensures var s := SetProperty(MapPropertySourceOfMap("map", map["prop1" := "val1"]), "prop5", "#{2+2}");
            Property(s, "prop5") == Success("#{2+2}") && Property(s, "prop1") == Success("val1")
            && Property(s, "prop9") == Failure(Panic("map has no prop9"))
  {
    var s := SetProperty(MapPropertySourceOfMap("map", map["prop1" := "val1"]), "prop5", "#{2+2}");
    assert "prop9" != "prop5" && "prop9" != "prop1" by {
      assert "prop9"[4] != "prop5"[4] && "prop9"[4] != "prop1"[4];
    }
    assert !HasProperty(s, "prop9");
    assert "map" + " has no " + "prop9" == "map has no prop9";
  }
}
