/**
 What looking a key up in a plain JavaScript object finds beside the object's own keys: the names every
 object inherits. `in` and indexing find them; none of them has the fields of a stored value.
 */
module PlainObjects {

  // A number assigned under this one is dropped: no own key is made for it.
  const PROTO := "__proto__"

  const INHERITED: seq<string> := [
    "toString", "constructor", "valueOf", "hasOwnProperty", "isPrototypeOf", "propertyIsEnumerable", "toLocaleString",
    PROTO, "__defineGetter__", "__defineSetter__", "__lookupGetter__", "__lookupSetter__"]

  predicate IsAmong(key: string, names: seq<string>) {
    names != [] && (key == names[0] || IsAmong(key, names[1..]))
  }

  predicate IsInherited(key: string) {
    IsAmong(key, INHERITED)
  }

  lemma {:induction false} AmongIsMembership(key: string, names: seq<string>)
    ensures IsAmong(key, names) <==> key in names
    decreases |names|
  {
    if names != [] {
      AmongIsMembership(key, names[1..]);
      assert names == [names[0]] + names[1..];
    }
  }

  lemma NamesHoldNoPlus(i: nat)
    requires i < |INHERITED|
    ensures '+' !in INHERITED[i]
  {
    if i < 4 {
      assert '+' !in INHERITED[0] && '+' !in INHERITED[1] && '+' !in INHERITED[2] && '+' !in INHERITED[3];
    } else if i < 8 {
      assert '+' !in INHERITED[4] && '+' !in INHERITED[5] && '+' !in INHERITED[6] && '+' !in INHERITED[7];
    } else {
      assert '+' !in INHERITED[8] && '+' !in INHERITED[9] && '+' !in INHERITED[10] && '+' !in INHERITED[11];
    }
  }

  lemma NoPlusIsInherited(key: string)
    requires '+' in key
    ensures !IsInherited(key)
  {
    AmongIsMembership(key, INHERITED);
    if key in INHERITED {
      var i :| 0 <= i < |INHERITED| && INHERITED[i] == key;
      NamesHoldNoPlus(i);
    }
  }
}
