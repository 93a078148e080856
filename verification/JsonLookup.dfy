/** Members by name, as cJSON_GetObjectItemCaseSensitive finds them. */
module JsonLookup {
  import opened Bytes
  import opened JsonValue

  /** The first member with this name; names are compared as C strings. */
  function Lookup(members: seq<Member>, name: bytes): Option<Value> {
    if members == [] then None
    else if CString(members[0].key) == name then Some(members[0].value)
    else Lookup(members[1..], name)
  }

  /** What is found is the value of the first member with the name, byte for byte, if there is one. */
  lemma {:induction false} FirstNamed(members: seq<Member>, name: bytes, i: nat)
    requires i <= |members| && forall k | 0 <= k < i :: CString(members[k].key) != name
    ensures i == |members| ==> Lookup(members, name) == None
    ensures i < |members| && CString(members[i].key) == name ==> Lookup(members, name) == Some(members[i].value)
    decreases i
  {
    if i > 0 {
      FirstNamed(members[1..], name, i - 1);
    }
  }

  /** Items that are no objects have no named children. */
  function GetItem(v: Value, name: bytes): Option<Value> {
    if v.Object? then Lookup(v.members, name) else None
  }

  /** valuestring of a string member. */
  function GetString(v: Value, name: bytes): Option<bytes> {
    match GetItem(v, name)
    case Some(String(s)) => Some(CString(s))
    case _ => None
  }
}
