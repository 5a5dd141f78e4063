/** The capability-list rewrite performed once a viewer has been admitted to
    a private post: every occurrence of the post type's private-read
    capability is replaced by its plain read capability, with the special
    case that a single occurrence turns the whole list into `[read]`. */
module CapsRewrite {
  import opened Wrappers

  /** `array_keys( $caps, $x )` on a list: the positions holding `x`, in
      increasing order. */
  function KeysOf(caps: seq<string>, x: string): (keys: seq<nat>)
    decreases |caps|
  {
    if caps == [] then []
    else KeysOf(caps[..|caps| - 1], x) + (if caps[|caps| - 1] == x then [|caps| - 1] else [])
  }

  /** The list with every occurrence of `x` removed, the rest in order. */
  function Without(caps: seq<string>, x: string): (rest: seq<string>)
    decreases |caps|
  {
    if caps == [] then []
    else Without(caps[..|caps| - 1], x) + (if caps[|caps| - 1] == x then [] else [caps[|caps| - 1]])
  }

  /** The PHP array after `unset( $caps[ $k ] )` for every `k` in
      `array_keys( $caps, $x )`: a hole (None) at exactly the keys found,
      and every other position keeps its value. */
  function Masked(caps: seq<string>, x: string): (slots: seq<Option<string>>)
    ensures |slots| == |caps|
    ensures forall i: nat :: i < |caps| ==> (slots[i].None? <==> i in KeysOf(caps, x))
    ensures forall i :: 0 <= i < |caps| && slots[i].Some? ==> slots[i].value == caps[i]
  {
    KeysOfMembers(caps, x);
    seq(|caps|, i requires 0 <= i < |caps| => if caps[i] == x then None else Some(caps[i]))
  }

  /** `array_values`: the values of an array with holes, renumbered from 0. */
  function Compact(slots: seq<Option<string>>): (values: seq<string>)
    decreases |slots|
  {
    if slots == [] then []
    else Compact(slots[..|slots| - 1]) + (if slots[|slots| - 1].Some? then [slots[|slots| - 1].value] else [])
  }

  /** The capability list after the rewrite, for a post type whose private
      read capability is `readPrivate` and whose read capability is `read`. */
  function RewrittenCaps(caps: seq<string>, readPrivate: string, read: string): (r: seq<string>)
  {
    if |KeysOf(caps, readPrivate)| == 1 then [read]
    else Without(caps, readPrivate) + [read]
  }

  /** The rewrite as the source performs it: collect the keys, then either
      reset the list or unset each key, append `read` and renumber. */
  method RewriteCaps(caps: seq<string>, readPrivate: string, read: string) returns (r: seq<string>)
    ensures r == RewrittenCaps(caps, readPrivate, read)
  {
    var keys: seq<nat> := [];
    for i := 0 to |caps|
      invariant keys == KeysOf(caps[..i], readPrivate)
    {
      assert caps[..i + 1][..i] == caps[..i];
      if caps[i] == readPrivate {
        keys := keys + [i];
      }
    }
    assert caps[..|caps|] == caps;
    if |keys| == 1 {
      r := [read];
    } else {
      KeysOfMembers(caps, readPrivate);
      var slots: seq<Option<string>> := seq(|caps|, i requires 0 <= i < |caps| => Some(caps[i]));
      for k := 0 to |keys|
        invariant |slots| == |caps|
        invariant forall i :: 0 <= i < |caps| ==> slots[i] == if i in keys[..k] then None else Some(caps[i])
      {
        assert keys[..k + 1] == keys[..k] + [keys[k]];
        assert keys[k] in KeysOf(caps, readPrivate);
        slots := slots[keys[k] := None];
      }
      assert keys[..|keys|] == keys;
      assert slots == Masked(caps, readPrivate);
      slots := slots + [Some(read)];
      r := [];
      for j := 0 to |slots|
        invariant r == Compact(slots[..j])
      {
        assert slots[..j + 1][..j] == slots[..j];
        if slots[j].Some? {
          r := r + [slots[j].value];
        }
      }
      assert slots[..|slots|] == slots;
      assert slots[..|slots| - 1] == Masked(caps, readPrivate);
      CompactMasked(caps, readPrivate);
    }
  }

  /** A position is among the keys exactly when it holds `x`. */
  lemma {:induction false} KeysOfMembers(caps: seq<string>, x: string)
    ensures forall i: nat :: i in KeysOf(caps, x) <==> i < |caps| && caps[i] == x
    decreases |caps|
  {
    if caps != [] {
      var p := caps[..|caps| - 1];
      KeysOfMembers(p, x);
      assert forall i :: 0 <= i < |p| ==> p[i] == caps[i];
    }
  }

  /** `count( array_keys( $caps, $x ) )` is the number of occurrences of `x`. */
  lemma {:induction false} KeysOfCount(caps: seq<string>, x: string)
    ensures |KeysOf(caps, x)| == multiset(caps)[x]
    decreases |caps|
  {
    if caps != [] {
      var p := caps[..|caps| - 1];
      KeysOfCount(p, x);
      assert caps == p + [caps[|caps| - 1]];
    }
  }

  /** Renumbering the masked list gives the list without `x`. */
  lemma {:induction false} CompactMasked(caps: seq<string>, x: string)
    ensures Compact(Masked(caps, x)) == Without(caps, x)
    decreases |caps|
  {
    if caps != [] {
      var p := caps[..|caps| - 1];
      CompactMasked(p, x);
      assert Masked(caps, x)[..|caps| - 1] == Masked(p, x);
    }
  }

  /** Removal works element by element: it distributes over concatenation,
      so the kept entries stay in their original relative order. */
  lemma {:induction false} WithoutAppend(a: seq<string>, b: seq<string>, x: string)
    ensures Without(a + b, x) == Without(a, x) + Without(b, x)
    decreases |b|
  {
    if b == [] {
      assert a + b == a;
    } else {
      var q := b[..|b| - 1];
      WithoutAppend(a, q, x);
      assert (a + b)[..|a + b| - 1] == a + q;
    }
  }

  /** Removal drops exactly the occurrences of `x` and keeps every other
      entry as often as it occurred. */
  lemma {:induction false} WithoutCount(caps: seq<string>, x: string, y: string)
    ensures multiset(Without(caps, x))[y] == if y == x then 0 else multiset(caps)[y]
    decreases |caps|
  {
    if caps != [] {
      var p := caps[..|caps| - 1];
      WithoutCount(p, x, y);
      assert caps == p + [caps[|caps| - 1]];
    }
  }

  /** Removal shortens the list by the number of occurrences of `x`. */
  lemma {:induction false} WithoutLength(caps: seq<string>, x: string)
    ensures |Without(caps, x)| + multiset(caps)[x] == |caps|
    decreases |caps|
  {
    if caps != [] {
      var p := caps[..|caps| - 1];
      WithoutLength(p, x);
      assert caps == p + [caps[|caps| - 1]];
    }
  }

  /** A single occurrence resets the list to exactly `[read]`, dropping every
      other entry. */
  lemma RewriteSingleOccurrence(caps: seq<string>, readPrivate: string, read: string)
    requires multiset(caps)[readPrivate] == 1
    ensures RewrittenCaps(caps, readPrivate, read) == [read]
  {
    KeysOfCount(caps, readPrivate);
  }

  /** Zero or several occurrences: all of them are removed, the other entries
      keep their order, and exactly one `read` is appended at the end. */
  lemma RewriteOtherCount(caps: seq<string>, readPrivate: string, read: string)
    requires multiset(caps)[readPrivate] != 1
    requires read != readPrivate
    ensures var r := RewrittenCaps(caps, readPrivate, read);
      && |r| >= 1 && r[|r| - 1] == read
      && r[..|r| - 1] == Without(caps, readPrivate)
      && readPrivate !in r
      && forall y :: multiset(r)[y] ==
           if y == readPrivate then 0 else if y == read then multiset(caps)[y] + 1 else multiset(caps)[y]
  {
    KeysOfCount(caps, readPrivate);
    var w := Without(caps, readPrivate);
    var r := w + [read];
    assert RewrittenCaps(caps, readPrivate, read) == r;
    assert r[..|r| - 1] == w;
    forall y ensures multiset(r)[y] ==
        if y == readPrivate then 0 else if y == read then multiset(caps)[y] + 1 else multiset(caps)[y]
    {
      WithoutCount(caps, readPrivate, y);
      assert multiset(r) == multiset(w) + multiset{read};
    }
    WithoutCount(caps, readPrivate, readPrivate);
  }

  /** Whatever the count, the rewritten list grants the plain read
      capability and no longer holds the private one. */
  lemma RewriteGrantsRead(caps: seq<string>, readPrivate: string, read: string)
    requires read != readPrivate
    ensures read in RewrittenCaps(caps, readPrivate, read)
    ensures readPrivate !in RewrittenCaps(caps, readPrivate, read)
  {
    if |KeysOf(caps, readPrivate)| != 1 {
      WithoutCount(caps, readPrivate, readPrivate);
    }
  }

  /** With distinct capability names the rewrite always changes the list:
      a single occurrence is replaced by a list without it, and otherwise
      the length changes by one minus the number of occurrences. */
  lemma RewriteChangesCaps(caps: seq<string>, readPrivate: string, read: string)
    requires read != readPrivate
    ensures RewrittenCaps(caps, readPrivate, read) != caps
  {
    KeysOfCount(caps, readPrivate);
    WithoutLength(caps, readPrivate);
    if multiset(caps)[readPrivate] == 1 {
      assert readPrivate in caps;
      assert readPrivate !in [read];
    } else {
      assert |RewrittenCaps(caps, readPrivate, read)| != |caps|;
    }
  }
}
