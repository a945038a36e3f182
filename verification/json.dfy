/** The JSON values these records encode to, down to the members of an
    object (RFC 8259 section 4): which names appear, in which order, with
    which values. Text layout (whitespace, escaping) is not represented. */
module Json {
  import opened Results

  datatype Json =
    | Null
    | Number(n: int)
    | String(text: string)
    | Array(items: seq<Json>)
    | Object(members: seq<Member>)

  /** One name/value pair of an object. */
  datatype Member = Member(name: string, value: Json)

  /** The names of `ms`, in order. */
  function Names(ms: seq<Member>): (ns: seq<string>)
    ensures |ns| == |ms|
    ensures forall i :: 0 <= i < |ms| ==> ns[i] == ms[i].name
  {
    if ms == [] then [] else [ms[0].name] + Names(ms[1..])
  }

  /** RFC 8259 section 4 says names SHOULD be unique. */
  predicate UniqueNames(ms: seq<Member>) {
    forall i, j :: 0 <= i < j < |ms| ==> ms[i].name != ms[j].name
  }

  /** The value of the first member called `name`, if any. */
  function Lookup(ms: seq<Member>, name: string): Option<Json> {
    if ms == [] then None
    else if ms[0].name == name then Some(ms[0].value)
    else Lookup(ms[1..], name)
  }

  /** Looking a name up in a concatenation searches the left part first. */
  lemma {:induction false} LookupAppend(a: seq<Member>, b: seq<Member>, name: string)
    ensures Lookup(a + b, name) == if name in Names(a) then Lookup(a, name) else Lookup(b, name)
  {
    if a == [] {
      assert a + b == b;
    } else if a[0].name == name {
      assert (a + b)[0] == a[0];
      assert Names(a)[0] == name;
    } else {
      assert (a + b)[0] == a[0];
      assert (a + b)[1..] == a[1..] + b;
      assert name in Names(a) <==> name in Names(a[1..]) by {
        assert Names(a) == [a[0].name] + Names(a[1..]);
      }
      LookupAppend(a[1..], b, name);
    }
  }

  lemma {:induction false} NamesAppend(a: seq<Member>, b: seq<Member>)
    ensures Names(a + b) == Names(a) + Names(b)
  {
    if a != [] {
      assert (a + b)[1..] == a[1..] + b;
      NamesAppend(a[1..], b);
    }
  }

  /** With unique names, looking up the name of a member finds that member. */
  lemma {:induction false} LookupUnique(ms: seq<Member>, m: Member)
    requires UniqueNames(ms) && m in ms
    ensures Lookup(ms, m.name) == Some(m.value)
  {
    if ms[0] != m {
      var k :| 0 < k < |ms| && ms[k] == m;
      assert ms[0].name != m.name;
      var rest := ms[1..];
      assert rest[k - 1] == m;
      assert UniqueNames(rest) by {
        forall i, j | 0 <= i < j < |rest| ensures rest[i].name != rest[j].name {
          assert rest[i] == ms[i + 1] && rest[j] == ms[j + 1];
        }
      }
      LookupUnique(rest, m);
    }
  }

  /** A lookup finds something exactly when the name occurs, and what it
      finds is the value of a member with that name. */
  lemma {:induction false} LookupFinds(ms: seq<Member>, name: string)
    ensures Lookup(ms, name).Some? <==> name in Names(ms)
    ensures Lookup(ms, name).Some? ==> Member(name, Lookup(ms, name).value) in ms
  {
    if ms != [] {
      assert Names(ms) == [ms[0].name] + Names(ms[1..]);
      LookupFinds(ms[1..], name);
    }
  }
}
