/**
  Which store keys feed which derived index.  The FSM splits a key that starts
  with /user/ at its first four slashes, so what follows the prefix is cut at
  most twice; these lemmas say which strings that accepts.
*/
module KeyKinds {

  import opened Wrappers

  const USER := "/user/"

  /** The text before and after the first slash. */
  function Cut(s: string): (c: Option<(string, string)>)
    ensures c.None? <==> '/' !in s
    ensures c.Some? ==> '/' !in c.value.0 && s == c.value.0 + "/" + c.value.1
  {
    if s == [] then None
    else if s[0] == '/' then Some(("", s[1..]))
    else match Cut(s[1..])
      case None => None
      case Some((a, b)) => Some(([s[0]] + a, b))
  }

  predicate HasSuffix(s: string, t: string) {
    |t| <= |s| && s[|s| - |t|..] == t
  }

  /** {id}, {type} and {guid} of /user/{id}/{type}/{guid}: the five-part split. */
  function Object(key: string): Option<(string, string, string)> {
    if !(USER <= key) then None
    else match Cut(key[|USER|..])
      case None => None
      case Some((id, t)) =>
        match Cut(t)
        case None => None
        case Some((kind, guid)) => Some((id, kind, guid))
  }

  predicate IsMail(key: string) {
    Object(key).Some? && Object(key).value.1 == "mail"
  }

  predicate Deferrable(key: string) {
    && Object(key).Some? && !HasSuffix(key, "/profile")
    && (Object(key).value.1 == "mail" || Object(key).value.1 == "event")
  }

  /** The user whose profile the key holds: the four-part split. */
  function ProfileOf(key: string): Option<string> {
    if !(USER <= key) then None
    else match Cut(key[|USER|..])
      case None => None
      case Some((id, t)) => if t == "profile" then Some(id) else None
  }

  lemma CutUnique(a: string, b: string)
    requires '/' !in a
    ensures Cut(a + "/" + b) == Some((a, b))
  {
    var s := a + "/" + b;
    assert s[|a|] == '/';
    var (x, y) := Cut(s).value;
    SlashAt(a, b, x, y);
  }

  lemma SlashAt(a: string, b: string, x: string, y: string)
    requires '/' !in a && '/' !in x && a + "/" + b == x + "/" + y
    ensures a == x && b == y
  {
    var s := a + "/" + b;
    assert s[|a|] == '/' && s[|x|] == '/';
    assert |a| == |x| by {
      assert forall i :: 0 <= i < |a| ==> s[i] == a[i];
      assert forall i :: 0 <= i < |x| ==> s[i] == x[i];
    }
    assert s[..|a|] == a && s[..|x|] == x && s[|a| + 1..] == b && s[|x| + 1..] == y;
  }

  /** An object key names one user, one type and one object id, and those name the key. */
  lemma ObjectKeyIff(key: string, id: string, kind: string, guid: string)
    ensures Object(key) == Some((id, kind, guid)) <==>
            '/' !in id && '/' !in kind && key == USER + (id + "/" + (kind + "/" + guid))
  {
    var t := kind + "/" + guid;
    var r := id + "/" + t;
    if Object(key) == Some((id, kind, guid)) {
      assert key == USER + key[|USER|..];
    } else if '/' !in id && '/' !in kind && key == USER + r {
      assert key[|USER|..] == r;
      CutUnique(id, t);
      CutUnique(kind, guid);
    }
  }

  /** Exactly /user/{id}/profile: a longer path that ends in /profile is not one. */
  lemma ProfileKeyIff(key: string, id: string)
    ensures ProfileOf(key) == Some(id) <==> '/' !in id && key == USER + (id + "/" + "profile")
  {
    var r := id + "/" + "profile";
    if ProfileOf(key) == Some(id) {
      assert key == USER + key[|USER|..];
    } else if '/' !in id && key == USER + r {
      assert key[|USER|..] == r;
      CutUnique(id, "profile");
    }
  }

  /** A profile key is never deferred to the worker, so its row is written inside the apply. */
  lemma ProfileNotDeferred(key: string)
    requires ProfileOf(key).Some?
    ensures !Deferrable(key) && !IsMail(key)
  {
    assert Cut("profile").None?;
  }

  ghost predicate IsDeferrable(key: string, id: string, kind: string, guid: string) {
    && '/' !in id && '/' !in kind && (kind == "mail" || kind == "event")
    && key == USER + (id + "/" + (kind + "/" + guid))
  }

  /** Mail and event objects are deferred, unless the guid ends like a profile key. */
  lemma DeferrableIff(key: string)
    ensures Deferrable(key) <==>
            && (forall p: string :: key != p + "/profile")
            && exists id, kind, guid :: IsDeferrable(key, id, kind, guid)
  {
    if HasSuffix(key, "/profile") {
      assert key == key[..|key| - 8] + "/profile";
    }
    if Object(key).Some? {
      var (id, kind, guid) := Object(key).value;
      ObjectKeyIff(key, id, kind, guid);
      assert kind == "mail" || kind == "event" ==> IsDeferrable(key, id, kind, guid);
    }
    forall id, kind, guid | IsDeferrable(key, id, kind, guid) ensures Object(key) == Some((id, kind, guid)) {
      ObjectKeyIff(key, id, kind, guid);
    }
  }

  function MailKey(id: string, guid: string): string { USER + (id + "/" + ("mail" + "/" + guid)) }

  function ProfileKey(id: string): string { USER + (id + "/" + "profile") }

  /** Mail keys are the keys of the mail objects, one each. */
  lemma MailKeyIff(key: string)
    ensures IsMail(key) <==> exists id, guid :: '/' !in id && key == MailKey(id, guid)
    ensures forall id, guid, id', guid' ::
              '/' !in id && '/' !in id' && MailKey(id, guid) == MailKey(id', guid') ==> id == id' && guid == guid'
  {
    if IsMail(key) {
      var (id, kind, guid) := Object(key).value;
      ObjectKeyIff(key, id, kind, guid);
    }
    forall id, guid | '/' !in id
      ensures Object(MailKey(id, guid)) == Some((id, "mail", guid))
    {
      ObjectKeyIff(MailKey(id, guid), id, "mail", guid);
    }
  }
}
