/** `Util.Config`: a store of values under string keys, kept in a variable
    captured by the returned methods and changed in place by them. */
module ConfigStore {
  import opened Wrappers

  class Config<V> {
    var data: map<string, V>

    /** The store starts out empty. */
    constructor ()
      ensures data == map[]
    {
      data := map[];
    }

    /** `has(key)`: the key is present. */
    function Has(key: string): (b: bool)
      reads this
      ensures b <==> key in data
    {
      key in data
    }

    /** `get(key, default_value)`: the stored value, or the default when the
        key is absent. */
    function Get(key: string, default: V): (v: V)
      reads this
      ensures Has(key) ==> v == data[key]
      ensures !Has(key) ==> v == default
    {
      if !Has(key) then default else data[key]
    }

    /** `set(key, value)`: afterwards the key is present and every lookup of
        it gives `value`, whatever the default; other keys keep their state. */
    method Set(key: string, value: V)
      modifies this
      ensures data == old(data)[key := value]
      ensures Has(key) && forall d :: Get(key, d) == value
      ensures forall k :: k != key ==> (Has(k) <==> old(Has(k))) && (k in data ==> data[k] == old(data)[k])
    {
      data := data[key := value];
    }

    /** `unset(key)`: removes a present key and reports true; an absent key
        reports false and leaves the store as it was. */
    method Unset(key: string) returns (removed: bool)
      modifies this
      ensures removed <==> old(Has(key))
      ensures data == old(data) - {key}
      ensures !Has(key)
      ensures !removed ==> data == old(data)
      ensures forall k :: k != key ==> (Has(k) <==> old(Has(k))) && (k in data ==> data[k] == old(data)[k])
    {
      if Has(key) {
        data := data - {key};
        removed := true;
      } else {
        removed := false;
      }
    }

    /** `backup()`: the whole store. */
    function Backup(): (snapshot: map<string, V>)
      reads this
      ensures forall k :: k in snapshot <==> Has(k)
      ensures forall k :: k in snapshot ==> snapshot[k] == Get(k, snapshot[k])
    {
      data
    }

    /** `reset(dataset)`: a plain object (`Some`) becomes the whole store;
        anything else (`None`) empties it, without an error. */
    method Reset(dataset: Option<map<string, V>>)
      modifies this
      ensures dataset.Some? ==> data == dataset.value
      ensures dataset.None? ==> data == map[]
      ensures Backup() == dataset.GetOr(map[])
    {
      data := match dataset
        case Some(m) => m
        case None => map[];
    }
  }
}
