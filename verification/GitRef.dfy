/** Which references pass the check of branch names (crates/memmux-worktree/src/slug.rs,
    `is_valid_ref`), character by character. */
module GitRef {
  import opened Slug

  /** Two neighbouring characters that may not stand together. */
  predicate Clash(x: char, y: char) {
    || (x == '.' && (y == '.' || y == '/'))
    || (x == '/' && (y == '.' || y == '/'))
    || (x == '@' && y == '{')
  }

  /** A character that may not stand anywhere: a blank or control character, or one of ~^:?*[\ . */
  predicate Banned(c: char) {
    c <= ' ' || '\U{7f}' <= c <= '\U{9f}' || c in "~^:?*[\\"
  }

  /** A character that may not stand at either end. */
  predicate BadEnd(c: char) { c == '.' || c == '/' }

  predicate Neighbours(s: string, i: nat, x: char, y: char) {
    i + 1 < |s| && s[i] == x && s[i + 1] == y
  }

  lemma ContainsIff(s: string, x: char, y: char)
    ensures Contains(s, [x, y]) <==> exists i: nat :: Neighbours(s, i, x, y)
  {
    if Contains(s, [x, y]) {
      var i :| 0 <= i <= |s| && OccursAt(s, [x, y], i);
      OccursMeans(s, x, y, i);
      assert Neighbours(s, i, x, y);
    }
    if i: nat :| Neighbours(s, i, x, y) {
      assert s[i..i + 2] == [x, y];
      assert OccursAt(s, [x, y], i);
    }
  }

  /** Where a slash or a dot may stand. */
  ghost predicate WellSeparated(s: string) {
    && s != "" && !BadEnd(s[0]) && !BadEnd(s[|s| - 1])
    && forall i :: 0 <= i < |s| - 1 ==> SlashApart(s[i], s[i + 1])
  }

  predicate SlashApart(x: char, y: char) {
    !(x == '/' && BadEnd(y)) && !(x == '.' && y == '/')
  }

  ghost predicate AllGood(cs: seq<string>) {
    forall i :: 0 <= i < |cs| ==> GoodComponent(cs[i])
  }

  lemma LastSlash(s: string) returns (k: int)
    ensures -1 <= k < |s| && (k >= 0 ==> s[k] == '/')
    ensures forall i :: k < i < |s| ==> s[i] != '/'
  {
    k := |s| - 1;
    while k >= 0 && s[k] != '/'
      invariant -1 <= k < |s|
      invariant forall i :: k < i < |s| ==> s[i] != '/'
    {
      k := k - 1;
    }
  }

  lemma OneMoreComponent(p: string, t: string)
    requires forall i :: 0 <= i < |t| ==> t[i] != '/'
    ensures WellSeparated(p + "/" + t) <==> WellSeparated(p) && GoodComponent(t)
  {
    var s := p + "/" + t;
    if p == "" || t == "" {
      assert s[0] == '/' || s[|s| - 1] == '/';
    } else if WellSeparated(s) {
      assert s[0] == p[0] && s[|s| - 1] == t[|t| - 1];
      assert SlashApart(s[|p| - 1], s[|p|]) && SlashApart(s[|p|], s[|p| + 1]);
      forall i | 0 <= i < |p| - 1 ensures SlashApart(p[i], p[i + 1]) {
        assert SlashApart(s[i], s[i + 1]);
      }
    }
    if WellSeparated(p) && GoodComponent(t) {
      assert s[0] == p[0] && s[|s| - 1] == t[|t| - 1];
      forall i | 0 <= i < |s| - 1 ensures SlashApart(s[i], s[i + 1]) {
        if i < |p| - 1 {
          assert SlashApart(p[i], p[i + 1]);
        } else if i > |p| {
          assert s[i] == t[i - |p| - 1] && s[i + 1] == t[i - |p|];
        }
      }
    }
  }

  lemma {:induction false} ComponentsGoodIff(s: string)
    ensures AllGood(Components(s)) <==> WellSeparated(s)
    decreases |s|
  {
    hide Components, GoodComponent, WellSeparated, AllGood;
    var k := LastSlash(s);
    if k < 0 {
      SingleComponent(s);
      NoSlash(s);
      NoneGood();
      AllGoodSnoc([], s);
      assert [] + [s] == [s];
    } else {
      var p, t := CutAt(s, k);
      OneComponent(p, t);
      OneMoreComponent(p, t);
      ComponentsGoodIff(p);
      AllGoodSnoc(Components(p), t);
    }
  }

  lemma NoneGood()
    ensures AllGood([])
  {
  }

  lemma CutAt(s: string, k: nat) returns (p: string, t: string)
    requires k < |s| && s[k] == '/' && forall i :: k < i < |s| ==> s[i] != '/'
    ensures s == p + "/" + t && |p| < |s| && forall i :: 0 <= i < |t| ==> t[i] != '/'
  {
    p, t := s[..k], s[k + 1..];
  }

  lemma NoSlash(s: string)
    requires forall i :: 0 <= i < |s| ==> s[i] != '/'
    ensures GoodComponent(s) <==> WellSeparated(s)
  {
  }

  lemma AllGoodSnoc(cs: seq<string>, t: string)
    ensures AllGood(cs + [t]) <==> AllGood(cs) && GoodComponent(t)
  {
    hide GoodComponent;
    if AllGood(cs + [t]) {
      forall i | 0 <= i < |cs| ensures GoodComponent(cs[i]) {
        assert (cs + [t])[i] == cs[i];
      }
      assert (cs + [t])[|cs|] == t;
    }
  }

  /** The name is a valid reference if and only if it is not empty, neither begins nor ends with a dot or a
      slash, does not end in ".lock", and has neither a banned character nor two that clash. */
  lemma ValidRefIff(name: string)
    ensures IsValidRef(name) <==>
      && name != "" && !BadEnd(name[0]) && !BadEnd(name[|name| - 1])
      && !(|name| >= 5 && name[|name| - 5..] == ".lock")
      && (forall i :: 0 <= i < |name| ==> !Banned(name[i]))
      && (forall i :: 0 <= i < |name| - 1 ==> !Clash(name[i], name[i + 1]))
  {
    ContainsIff(name, '.', '.');
    ContainsIff(name, '/', '/');
    ContainsIff(name, '@', '{');
    ComponentsGoodIff(name);
    assert AllGood(Components(name)) <==>
      forall i :: 0 <= i < |Components(name)| ==> GoodComponent(Components(name)[i]);
    forall c: char ensures GoodRefChar(c) <==> !Banned(c) {
    }
    hide Contains, Components, GoodComponent, GoodRefChar, Banned;
    assert forall i :: 0 <= i < |name| - 1 && Clash(name[i], name[i + 1]) ==>
      Neighbours(name, i, name[i], name[i + 1]);
    if WellSeparated(name) && !(exists i: nat :: Neighbours(name, i, '.', '.'))
       && !(exists i: nat :: Neighbours(name, i, '/', '/')) && !(exists i: nat :: Neighbours(name, i, '@', '{')) {
      forall i | 0 <= i < |name| - 1 ensures !Clash(name[i], name[i + 1]) {
        assert SlashApart(name[i], name[i + 1]);
      }
    }
  }
}
