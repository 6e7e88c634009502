/** The transient store in front of the SVG generator: entries that expire a
    day after they are written, the key the generator files a drawing under,
    and the administrator's "clear cache" action that drops every entry the
    generator wrote. */
module TransientCache {
  import opened Wrappers
  import opened Php
  import opened Traversal

  /** DAY_IN_SECONDS, the lifetime of a stored drawing. */
  const DayInSeconds := 86400

  /** Every key the generator writes starts with this. */
  const KeyPrefix := "rp_svg_"

  /** A stored value and the time (in seconds) after which it is stale. */
  datatype Transient<V> = Transient(value: V, expires: int)

  // ---------------------------------------------------------------------
  // The store as a value
  // ---------------------------------------------------------------------

  /** `get_transient(key)` at time `now`: the value while `now` has not
      passed the expiry time, nothing otherwise. */
  function Fetch<V>(entries: map<string, Transient<V>>, key: string, now: int): (r: Option<V>)
    ensures r.Some? <==> key in entries && now <= entries[key].expires
    ensures r.Some? ==> r.value == entries[key].value
  {
    if key in entries && now <= entries[key].expires then Some(entries[key].value) else None
  }

  /** `set_transient(key, v, DAY_IN_SECONDS)` at time `now`. */
  function Store<V>(entries: map<string, Transient<V>>, key: string, v: V, now: int): (e: map<string, Transient<V>>)
    ensures e.Keys == entries.Keys + {key}
    ensures e[key] == Transient(v, now + DayInSeconds)
    ensures forall k :: k in entries && k != key ==> e[k] == entries[k]
  {
    entries[key := Transient(v, now + DayInSeconds)]
  }

  /** A value stored at `now` is read back until a day has passed and is
      gone after that; the other keys read as before. */
  lemma FetchAfterStore<V>(entries: map<string, Transient<V>>, key: string, v: V, now: int, key': string, now': int)
    ensures Fetch(Store(entries, key, v, now), key', now') ==
      if key' == key then (if now' <= now + DayInSeconds then Some(v) else None)
      else Fetch(entries, key', now')
  {
  }

  predicate HasKeyPrefix(k: string) {
    |KeyPrefix| <= |k| && k[..|KeyPrefix|] == KeyPrefix
  }

  /** The store after the "clear cache" action: the generator's entries are
      gone, every other transient stays. */
  function Cleared<V>(entries: map<string, Transient<V>>): (e: map<string, Transient<V>>)
    ensures forall k :: k in e <==> k in entries && !HasKeyPrefix(k)
    ensures forall k :: k in e ==> e[k] == entries[k]
  {
    map k | k in entries && !HasKeyPrefix(k) :: entries[k]
  }

  /** After clearing, every generator key misses and every other key reads
      as before. */
  lemma FetchAfterClear<V>(entries: map<string, Transient<V>>, key: string, now: int)
    ensures HasKeyPrefix(key) ==> Fetch(Cleared(entries), key, now) == None
    ensures !HasKeyPrefix(key) ==> Fetch(Cleared(entries), key, now) == Fetch(entries, key, now)
  {
  }

  // ---------------------------------------------------------------------
  // The store as an object
  // ---------------------------------------------------------------------

  /** The site's transients, each with its expiry time. */
  class TransientStore<V> {
    var entries: map<string, Transient<V>>

    constructor ()
      ensures entries == map[]
    {
      entries := map[];
    }

    /** `get_transient`: a stale entry is deleted on the way and reads as a miss. */
    method Get(key: string, now: int) returns (r: Option<V>)
      modifies this
      ensures r == Fetch(old(entries), key, now)
      ensures entries ==
        if key in old(entries) && old(entries)[key].expires < now then old(entries) - {key}
        else old(entries)
    {
      if key in entries {
        if entries[key].expires < now {
          entries := entries - {key};
          return None;
        }
        return Some(entries[key].value);
      }
      return None;
    }

    /** `set_transient` with a lifetime of one day. */
    method Set(key: string, v: V, now: int)
      modifies this
      ensures entries == Store(old(entries), key, v, now)
    {
      entries := entries[key := Transient(v, now + DayInSeconds)];
    }

    /** The "clear cache" action: delete the value row and the timeout row
      of every generator entry and report how many rows went. */
    method ClearAll() returns (deleted: nat)
      modifies this
      ensures entries == Cleared(old(entries))
      ensures deleted == 2 * |old(entries).Keys - entries.Keys|
    {
      var gone := set k | k in entries && HasKeyPrefix(k);
      assert gone == entries.Keys - Cleared(entries).Keys;
      deleted := 2 * |gone|;
      entries := Cleared(entries);
    }
  }

  // ---------------------------------------------------------------------
  // Cache keys
  // ---------------------------------------------------------------------

  /** The cache key as the generator builds it (before hashing): batch id,
      person id and serialised options joined with '|'. */
  function JoinedKey(batch: string, person: string, serial: string): string {
    KeyPrefix + batch + "|" + person + "|" + serial
  }

  /** The '|' join is ambiguous: batch "1|2" with person "3" and batch "1"
      with person "2|3" share one key, so one person's drawing is served
      for the other. */
  lemma JoinedKeyCollides(serial: string)
    ensures ("1|2", "3") != ("1", "2|3")
    ensures JoinedKey("1|2", "3", serial) == JoinedKey("1", "2|3", serial)
  {
    assert "1|2" != "1" by {
      assert |"1|2"| == 3;
    }
    assert KeyPrefix + "1|2" + "|" + "3" == KeyPrefix + "1" + "|" + "2|3";
  }

  /** A string preceded by its length, so that it can be read back. */
  function Field(s: string): string {
    NatToString(|s|) + ":" + s
  }

  /** Reads one length-prefixed field off the front of `t`, returning it and
      what follows it. */
  function ReadField(t: string): (r: Option<(string, string)>)
    ensures r.Some? ==> |r.value.1| < |t|
  {
    var ds := LeadingDigits(t);
    if ds == [] || |ds| == |t| || t[|ds|] != ':' then None
    else
      var n := DigitsValue(ds);
      var rest := t[|ds| + 1..];
      if n <= |rest| then Some((rest[..n], rest[n..])) else None
  }

  lemma ReadFieldOf(s: string, tail: string)
    ensures ReadField(Field(s) + tail) == Some((s, tail))
  {
    var digits := NatToString(|s|);
    var t := Field(s) + tail;
    assert t == digits + (":" + s + tail);
    LeadingDigitsOfDigits(digits, ":" + s + tail);
    DigitsValueOfNat(|s|);
    assert t[|digits|] == ':';
    assert t[|digits| + 1..] == s + tail;
  }

  /** The key the generator files a drawing under: the batch id and the
      person id each carry their length, then the serialised options. */
  function KeyOf(batch: string, person: string, serial: string): string {
    KeyPrefix + Field(batch) + Field(person) + serial
  }

  /** The parts of a key, when it is one. */
  function ParseKey(k: string): Option<(string, string, string)> {
    if !HasKeyPrefix(k) then None
    else
      match ReadField(k[|KeyPrefix|..])
      case None => None
      case Some((batch, rest)) =>
        match ReadField(rest)
        case None => None
        case Some((person, serial)) => Some((batch, person, serial))
  }

  /** Every key reads back as the parts it was built from. */
  lemma ParseKeyOf(batch: string, person: string, serial: string)
    ensures HasKeyPrefix(KeyOf(batch, person, serial))
    ensures ParseKey(KeyOf(batch, person, serial)) == Some((batch, person, serial))
  {
    var k := KeyOf(batch, person, serial);
    var body := Field(batch) + (Field(person) + serial);
    assert k == KeyPrefix + body;
    assert k[..|KeyPrefix|] == KeyPrefix;
    assert k[|KeyPrefix|..] == body;
    ReadFieldOf(batch, Field(person) + serial);
    ReadFieldOf(person, serial);
  }

  /** Different (batch, person, options) never share a key. */
  lemma KeyOfInjective(b1: string, p1: string, s1: string, b2: string, p2: string, s2: string)
    requires KeyOf(b1, p1, s1) == KeyOf(b2, p2, s2)
    ensures b1 == b2 && p1 == p2 && s1 == s2
  {
    ParseKeyOf(b1, p1, s1);
    ParseKeyOf(b2, p2, s2);
  }

  function BoolSerial(b: bool): string {
    if b then "b:1;" else "b:0;"
  }

  /** PHP's `serialize` of the merged options array, keys in default order
      (string lengths are counted in characters). */
  function SerializeOptions(o: Options): string {
    "a:4:{"
      + "s:14:\"include_photos\";" + BoolSerial(o.includePhotos)
      + "s:11:\"orientation\";s:" + NatToString(|o.orientation|) + ":\"" + o.orientation + "\";"
      + "s:9:\"max_nodes\";i:" + IntToString(o.maxNodes) + ";"
      + "s:9:\"max_depth\";i:" + IntToString(o.maxDepth) + ";"
      + "}"
  }

  /** The key of the drawing for `person` in `batch` under `opts`. */
  function CacheKey(batch: string, person: string, opts: Options): (k: string)
    ensures HasKeyPrefix(k)
    ensures ParseKey(k) == Some((batch, person, SerializeOptions(opts)))
  {
    ParseKeyOf(batch, person, SerializeOptions(opts));
    KeyOf(batch, person, SerializeOptions(opts))
  }
}
