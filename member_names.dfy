/** `clean_members`: reduces an Active Directory member entry such as
    `CN=Jane Doe,OU=Staff,DC=example,DC=edu` (a distinguished name in the
    string form of RFC 4514, section 2) to the value of its first relative
    distinguished name, by plain splitting: backslash escapes are not
    interpreted. */
module MemberNames {

  /** PHP's `explode( $d, $s )`: the pieces of `s` between occurrences of
      `d`. There is always at least one piece. */
  function Explode(s: string, d: char): (parts: seq<string>)
    ensures |parts| >= 1
    ensures forall i :: 0 <= i < |parts| ==> d !in parts[i]
    ensures forall i :: 0 <= i < |parts| ==> forall c :: c in parts[i] ==> c in s
    decreases |s|
  {
    if s == [] then [""]
    else
      var rest := Explode(s[1..], d);
      if s[0] == d then [""] + rest
      else [[s[0]] + rest[0]] + rest[1..]
  }

  /** PHP's `implode( $d, $parts )`. */
  function Implode(parts: seq<string>, d: char): (s: string)
    requires |parts| >= 1
    decreases |parts|
  {
    if |parts| == 1 then parts[0] else parts[0] + [d] + Implode(parts[1..], d)
  }

  /** Joining the pieces again gives back the original string. */
  lemma {:induction false} ImplodeExplode(s: string, d: char)
    ensures Implode(Explode(s, d), d) == s
    decreases |s|
  {
    if s != [] {
      ImplodeExplode(s[1..], d);
      var rest := Explode(s[1..], d);
      if s[0] == d {
        assert ([""] + rest)[1..] == rest;
      } else {
        var parts := [[s[0]] + rest[0]] + rest[1..];
        if |rest| > 1 {
          assert parts[1..] == rest[1..];
          assert Implode(rest, d) == rest[0] + [d] + Implode(rest[1..], d);
        }
      }
    }
  }

  /** Splitting a string that starts with a delimiter-free prefix `a`: the
      prefix is glued onto the first piece of the remainder. */
  lemma {:induction false} ExplodePrefix(a: string, t: string, d: char)
    requires d !in a
    ensures Explode(a + t, d) == [a + Explode(t, d)[0]] + Explode(t, d)[1..]
    decreases |a|
  {
    if a != [] {
      ExplodePrefix(a[1..], t, d);
      assert (a + t)[0] == a[0] && (a + t)[1..] == a[1..] + t;
      var e := Explode(t, d);
      var rest := Explode(a[1..] + t, d);
      assert rest[0] == a[1..] + e[0] && rest[1..] == e[1..];
      assert [a[0]] + (a[1..] + e[0]) == a + e[0];
    } else {
      assert a + t == t;
      assert Explode(t, d) == [Explode(t, d)[0]] + Explode(t, d)[1..];
      assert a + Explode(t, d)[0] == Explode(t, d)[0];
    }
  }

  /** A string that starts with the delimiter splits into an empty piece
      followed by the pieces of the rest. */
  lemma ExplodeAtDelimiter(t: string, d: char)
    ensures Explode([d] + t, d) == [""] + Explode(t, d)
  {
  }

  /** A string without the delimiter is a single piece. */
  lemma ExplodeNoDelimiter(s: string, d: char)
    requires d !in s
    ensures Explode(s, d) == [s]
  {
    ExplodePrefix(s, "", d);
    assert s + "" == s;
  }

  /** Splitting a join of delimiter-free pieces gives back the pieces. */
  lemma {:induction false} ExplodeImplode(parts: seq<string>, d: char)
    requires |parts| >= 1
    requires forall i :: 0 <= i < |parts| ==> d !in parts[i]
    ensures Explode(Implode(parts, d), d) == parts
    decreases |parts|
  {
    var head := parts[0];
    assert d !in head;
    if |parts| == 1 {
      ExplodePrefix(head, "", d);
      assert head + "" == head;
    } else {
      var tail := Implode(parts[1..], d);
      ExplodeImplode(parts[1..], d);
      assert Implode(parts, d) == head + ([d] + tail);
      ExplodePrefix(head, [d] + tail, d);
      ExplodeAtDelimiter(tail, d);
      assert head + "" == head;
      assert [head] + parts[1..] == parts;
    }
  }

  /** Joining a concatenation of piece lists puts one delimiter between the
      two joins. */
  lemma {:induction false} ImplodeAppend(p: seq<string>, q: seq<string>, d: char)
    requires |p| >= 1 && |q| >= 1
    ensures Implode(p + q, d) == Implode(p, d) + [d] + Implode(q, d)
    decreases |p|
  {
    assert (p + q)[0] == p[0];
    if |p| == 1 {
      assert (p + q)[1..] == q;
    } else {
      assert (p + q)[1..] == p[1..] + q;
      ImplodeAppend(p[1..], q, d);
    }
  }

  /** Splitting at one occurrence of the delimiter: the pieces of what comes
      before it, followed by the pieces of what comes after it. */
  lemma ExplodeSplit(a: string, t: string, d: char)
    ensures Explode(a + [d] + t, d) == Explode(a, d) + Explode(t, d)
  {
    var pa, pt := Explode(a, d), Explode(t, d);
    ImplodeExplode(a, d);
    ImplodeExplode(t, d);
    ImplodeAppend(pa, pt, d);
    assert forall i :: 0 <= i < |pa + pt| ==> d !in (pa + pt)[i];
    ExplodeImplode(pa + pt, d);
  }

  /** The text after the last `=` in the part before the first `,`. */
  function CleanMembers(member: string): (name: string)
    ensures ',' !in name && '=' !in name
  {
    var first := Explode(member, ',')[0];
    var parts := Explode(first, '=');
    parts[|parts| - 1]
  }

  /** For a first component `attr=value` whose parts hold neither `,` nor
      `=`, the value is what is returned, whatever follows the first comma. */
  lemma CleanMembersOfFirstRdn(attr: string, value: string, rest: string)
    requires ',' !in attr && '=' !in attr && ',' !in value && '=' !in value
    ensures CleanMembers(attr + "=" + value + "," + rest) == value
    ensures CleanMembers(attr + "=" + value) == value
  {
    var rdn := attr + "=" + value;
    assert ',' !in rdn;
    assert rdn + "," + rest == rdn + ("," + rest);
    ExplodePrefix(rdn, "," + rest, ',');
    ExplodeAtDelimiter(rest, ',');
    assert rdn + "" == rdn;
    ExplodePrefix(rdn, "", ',');
    assert Implode([attr, value], '=') == rdn;
    ExplodeImplode([attr, value], '=');
  }

  /** Only the part before the first comma matters. */
  lemma CleanMembersFirstPart(p: string, q: string)
    requires ',' !in p
    ensures CleanMembers(p + "," + q) == CleanMembers(p)
  {
    assert p + "," + q == p + ("," + q);
    ExplodePrefix(p, "," + q, ',');
    ExplodeAtDelimiter(q, ',');
    assert p + "" == p;
    ExplodeNoDelimiter(p, ',');
  }

  /** An entry with neither `,` nor `=` comes back unchanged. */
  lemma CleanMembersPlain(p: string)
    requires ',' !in p && '=' !in p
    ensures CleanMembers(p) == p
  {
    ExplodeNoDelimiter(p, ',');
    ExplodeNoDelimiter(p, '=');
  }

  /** The text after the LAST `=` of the first part is returned, whatever
      comes before it (which may hold further `=`). */
  lemma CleanMembersLastValue(a: string, v: string)
    requires ',' !in a && ',' !in v && '=' !in v
    ensures CleanMembers(a + "=" + v) == v
  {
    assert ',' !in a + "=" + v;
    ExplodeNoDelimiter(a + "=" + v, ',');
    ExplodeSplit(a, v, '=');
    ExplodeNoDelimiter(v, '=');
  }

  /** A typical member entry reduces to its common name. */
  lemma CommonNameScenario()
    ensures CleanMembers("CN=Jane Doe,OU=Staff") == "Jane Doe"
  {
    var attr, value, rest := "CN", "Jane Doe", "OU=Staff";
    CleanMembersOfFirstRdn(attr, value, rest);
    assert attr + "=" + value + "," + rest == "CN=Jane Doe,OU=Staff";
  }

  /** Escapes are not interpreted: RFC 4514 writes a comma inside a value as
      `\,`, and the split stops at it. */
  lemma EscapedCommaIsSplit()
    ensures CleanMembers("CN=Doe\\, Jane,OU=Staff") == "Doe\\"
  {
    var attr, value, rest := "CN", "Doe\\", " Jane,OU=Staff";
    CleanMembersOfFirstRdn(attr, value, rest);
    assert attr + "=" + value + "," + rest == "CN=Doe\\, Jane,OU=Staff";
  }
}
