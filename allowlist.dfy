/** `parse_allowlist` (main.py) and the access check in `handle_message` that
    uses it. The environment variable `ALLOWLIST_USER_IDS` is a parameter. */
module Allowlist {
  import opened Wrappers
  import opened Text
  import opened PyInt

  /** `int(part.strip())`: the integer one comma part spells, or `None` where
      `int` raises `ValueError` (a blank part is one of those). */
  function PartId(part: string): Option<int> {
    ParseLiteral(Strip(part))
  }

  /** Each comma part, parsed. */
  function Parsed(parts: seq<string>): (vals: seq<Option<int>>)
    ensures |vals| == |parts|
  {
    if parts == [] then [] else [PartId(parts[0])] + Parsed(parts[1..])
  }

  /** The value of part `k` is that part, parsed. */
  lemma {:induction false} ParsedAt(parts: seq<string>, k: nat)
    requires k < |parts|
    ensures Parsed(parts)[k] == PartId(parts[k])
    decreases k
  {
    if k > 0 {
      ParsedAt(parts[1..], k - 1);
    }
  }

  /** The integers among parsed parts, collected part by part. */
  function IdsOf(vals: seq<Option<int>>): set<int>
    decreases |vals|
  {
    if vals == [] then {}
    else
      var last := vals[|vals| - 1];
      IdsOf(vals[..|vals| - 1]) + (if last.Some? then {last.value} else {})
  }

  /** Taking one more value adds its integer, if it has one. */
  lemma IdsOfNext(vals: seq<Option<int>>, i: nat)
    requires i < |vals|
    ensures IdsOf(vals[..i + 1]) == IdsOf(vals[..i]) + (if vals[i].Some? then {vals[i].value} else {})
  {
    assert vals[..i + 1][..i] == vals[..i];
  }

  /** A stripped part has no whitespace at its ends, so `int` reads it as the
      bare literal it is. */
  lemma PartIdIsInt(part: string)
    ensures PartId(part) == ParseInt(Strip(part))
  {
    StripTwice(part);
  }

  /** Every part that parses contributes its integer. */
  lemma {:induction false} ValueCounted(vals: seq<Option<int>>, i: nat)
    requires i < |vals| && vals[i].Some?
    ensures vals[i].value in IdsOf(vals)
    decreases |vals|
  {
    var init := vals[..|vals| - 1];
    if i < |init| {
      assert init[i] == vals[i];
      ValueCounted(init, i);
    }
  }

  /** Every collected id comes from a value holding it; `i` is that value. */
  lemma {:induction false} IdSource(vals: seq<Option<int>>, x: int) returns (i: nat)
    requires x in IdsOf(vals)
    ensures i < |vals| && vals[i] == Some(x)
    decreases |vals|
  {
    var init := vals[..|vals| - 1];
    if x in IdsOf(init) {
      i := IdSource(init, x);
      assert init[i] == vals[i];
    } else {
      i := |vals| - 1;
    }
  }

  /** An id is allowed exactly when some part, stripped, parses to it. */
  lemma IdsOfMembership(parts: seq<string>, x: int)
    ensures x in IdsOf(Parsed(parts)) <==> exists i :: 0 <= i < |parts| && PartId(parts[i]) == Some(x)
  {
    var vals := Parsed(parts);
    if x in IdsOf(vals) {
      var i := IdSource(vals, x);
      ParsedAt(parts, i);
    } else if exists i :: 0 <= i < |parts| && PartId(parts[i]) == Some(x) {
      var i :| 0 <= i < |parts| && PartId(parts[i]) == Some(x);
      ParsedAt(parts, i);
      ValueCounted(vals, i);
    }
  }

  /** The allow-list a value of `ALLOWLIST_USER_IDS` denotes (unset reads as ""). */
  function AllowedIds(env: Option<string>): set<int> {
    var raw := Strip(env.GetOr(""));
    if raw == "" then {} else IdsOf(Parsed(Split(raw, ',')))
  }

  lemma StripTwice(s: string)
    ensures Strip(Strip(s)) == Strip(s)
  {
    if Strip(s) != [] {
      StripNoMargins(Strip(s));
    }
  }

  /** `parse_allowlist()`: strip the value; a blank value allows nobody in
      particular (the empty set); otherwise every comma part that is an
      integer once stripped is added, and blank or invalid parts are skipped. */
  method ParseAllowlist(env: Option<string>) returns (allowlist: set<int>)
    ensures allowlist == AllowedIds(env)
    ensures Strip(env.GetOr("")) == "" ==> allowlist == {}
  {
    var raw := Strip(env.GetOr(""));
    if raw == "" {
      return {};
    }
    allowlist := {};
    var parts := Split(raw, ',');
    ghost var vals := Parsed(parts);
    var i := 0;
    while i < |parts|
      invariant 0 <= i <= |parts|
      invariant allowlist == IdsOf(vals[..i])
    {
      var part := Strip(parts[i]);
      PartStep(parts, i);
      IdsOfNext(vals, i);
      if part != "" {
        var n := ParseInt(part);
        if n.Some? {
          allowlist := allowlist + {n.value};
        }
      }
      i := i + 1;
    }
    assert vals[..i] == vals;
  }

  /** One step of the loop: a blank part yields nothing, any other part what
      `int` reads from it. */
  lemma PartStep(parts: seq<string>, i: nat)
    requires i < |parts|
    ensures Strip(parts[i]) == "" ==> Parsed(parts)[i].None?
    ensures Strip(parts[i]) != "" ==> Parsed(parts)[i] == ParseInt(Strip(parts[i]))
  {
    ParsedAt(parts, i);
    PartIdIsInt(parts[i]);
  }

  /** The ids of two runs of values are the ids of each. */
  lemma {:induction false} IdsOfAppend(a: seq<Option<int>>, b: seq<Option<int>>)
    ensures IdsOf(a + b) == IdsOf(a) + IdsOf(b)
    decreases |b|
  {
    if b == [] {
      assert a + b == a;
    } else {
      var ab := a + b;
      assert ab[..|ab| - 1] == a + b[..|b| - 1];
      assert ab[|ab| - 1] == b[|b| - 1];
      IdsOfAppend(a, b[..|b| - 1]);
    }
  }

  /** Parsing commutes with concatenating runs of parts. */
  lemma {:induction false} ParsedAppend(a: seq<string>, b: seq<string>)
    ensures Parsed(a + b) == Parsed(a) + Parsed(b)
    decreases |a|
  {
    if a == [] {
      assert a + b == b;
    } else {
      assert (a + b)[1..] == a[1..] + b;
      ParsedAppend(a[1..], b);
    }
  }

  /** The values of the parts around part `k`, and of all the parts. */
  lemma ParsedAround(parts: seq<string>, k: nat)
    requires k < |parts|
    ensures Parsed(parts) == Parsed(parts[..k]) + [PartId(parts[k])] + Parsed(parts[k + 1..])
    ensures Parsed(parts[..k] + parts[k + 1..]) == Parsed(parts[..k]) + Parsed(parts[k + 1..])
  {
    var before, from, after := parts[..k], parts[k..], parts[k + 1..];
    assert parts == before + from;
    assert from[1..] == after && from[0] == parts[k];
    assert Parsed(from) == [PartId(parts[k])] + Parsed(after);
    ParsedAppend(before, from);
    ParsedAppend(before, after);
  }

  /** A value that is not an integer contributes nothing. */
  lemma NoneIgnored(a: seq<Option<int>>, b: seq<Option<int>>)
    ensures IdsOf(a + [None] + b) == IdsOf(a + b)
  {
    var none: seq<Option<int>> := [None];
    IdsOfAppend(a + none, b);
    IdsOfAppend(a, none);
    IdsOfAppend(a, b);
    assert IdsOf(none) == {} by {
      assert none[..0] == [];
    }
  }

  /** A part that is blank or not an integer changes nothing: removing it
      leaves the allow-list as it was. */
  lemma InvalidPartIgnored(parts: seq<string>, k: nat)
    requires k < |parts| && PartId(parts[k]).None?
    ensures IdsOf(Parsed(parts[..k] + parts[k + 1..])) == IdsOf(Parsed(parts))
  {
    ParsedAround(parts, k);
    NoneIgnored(Parsed(parts[..k]), Parsed(parts[k + 1..]));
  }

  /** The decimal spellings of `ids`, in order. */
  function Spellings(ids: seq<int>): (s: seq<string>)
    ensures |s| == |ids|
    ensures forall k :: 0 <= k < |ids| ==> s[k] == IntToString(ids[k])
  {
    if ids == [] then [] else [IntToString(ids[0])] + Spellings(ids[1..])
  }

  /** Each spelling parses back to its id. */
  lemma SpellingParses(ids: seq<int>, k: nat)
    requires k < |ids|
    ensures PartId(Spellings(ids)[k]) == Some(ids[k])
  {
    IntRoundTrip(ids[k]);
    StripNoMargins(Spellings(ids)[k]);
  }

  /** Comma-free pieces with no whitespace at their ends, joined by commas,
      denote the ids those pieces contribute. */
  lemma JoinedParts(parts: seq<string>)
    requires |parts| > 0
    requires forall k :: 0 <= k < |parts| ==> parts[k] != [] && ',' !in parts[k]
    requires !IsSpace(parts[0][0]) && !IsSpace(parts[|parts| - 1][|parts[|parts| - 1]| - 1])
    ensures AllowedIds(Some(Join(parts, ','))) == IdsOf(Parsed(parts))
  {
    var raw := Join(parts, ',');
    JoinEnds(parts, ',');
    StripNoMargins(raw);
    SplitJoin(parts, ',');
  }

  /** A spelling is non-empty, holds no comma and starts and ends with a
      character that is not whitespace. */
  lemma SpellingShape(n: int)
    ensures var s := IntToString(n);
      s != [] && ',' !in s && !IsSpace(s[0]) && !IsSpace(s[|s| - 1])
  {
    var s := IntToString(n);
    assert forall i :: 0 <= i < |s| ==> IsDigit(s[i]) || s[i] == '-';
  }

  /** The comma-joined spellings denote the ids the spellings contribute. */
  lemma JoinedSpellings(ids: seq<int>)
    requires |ids| > 0
    ensures AllowedIds(Some(Join(Spellings(ids), ','))) == IdsOf(Parsed(Spellings(ids)))
  {
    var parts := Spellings(ids);
    forall k | 0 <= k < |parts| ensures parts[k] != [] && ',' !in parts[k] {
      SpellingShape(ids[k]);
    }
    SpellingShape(ids[0]);
    SpellingShape(ids[|ids| - 1]);
    JoinedParts(parts);
  }

  /** The ids the spellings contribute are exactly the listed ids. */
  lemma SpellingIds(ids: seq<int>, x: int)
    ensures x in IdsOf(Parsed(Spellings(ids))) <==> x in ids
  {
    var vals := Parsed(Spellings(ids));
    if x in IdsOf(vals) {
      var i := IdSource(vals, x);
      SpellingParses(ids, i);
      ParsedAt(Spellings(ids), i);
    }
    if x in ids {
      var i :| 0 <= i < |ids| && ids[i] == x;
      SpellingParses(ids, i);
      ParsedAt(Spellings(ids), i);
      ValueCounted(vals, i);
    }
  }

  /** Writing a list of ids comma-separated and parsing it gives back exactly
      the set of those ids. */
  lemma AllowlistRoundTrip(ids: seq<int>, x: int)
    requires |ids| > 0
    ensures x in AllowedIds(Some(Join(Spellings(ids), ','))) <==> x in ids
  {
    JoinedSpellings(ids);
    SpellingIds(ids, x);
  }

  /** A join of non-blank pieces starts with the first piece's first character
      and ends with the last piece's last character. */
  lemma {:induction false} JoinEnds(parts: seq<string>, sep: char)
    requires |parts| > 0 && forall k :: 0 <= k < |parts| ==> parts[k] != []
    ensures Join(parts, sep) != []
    ensures Join(parts, sep)[0] == parts[0][0]
    ensures Join(parts, sep)[|Join(parts, sep)| - 1] == parts[|parts| - 1][|parts[|parts| - 1]| - 1]
    decreases |parts|
  {
    if |parts| > 1 {
      JoinEnds(parts[1..], sep);
    }
  }

  /** `handle_message` refuses a user when the allow-list is non-empty and
      the sender is unknown or not on it. */
  function AccessDenied(allowlist: set<int>, userId: Option<int>): bool {
    allowlist != {} && (userId.None? || userId.value !in allowlist)
  }

  /** A value made of whitespace only gives the empty allow-list, as an unset
      one does, and so lets everybody in. */
  lemma BlankValueLetsEveryoneIn(env: string, userId: Option<int>)
    requires forall i :: 0 <= i < |env| ==> IsSpace(env[i])
    ensures AllowedIds(Some(env)) == {}
    ensures !AccessDenied(AllowedIds(Some(env)), userId)
  {
    StripAllSpace(env);
  }

  /** A value in which no comma part is an integer, such as `abc`, gives the
      empty allow-list, so it lets everybody in just as a blank value does. */
  lemma NoValidIdLetsEveryoneIn(env: string, userId: Option<int>)
    requires forall k :: 0 <= k < |Split(Strip(env), ',')| ==> PartId(Split(Strip(env), ',')[k]).None?
    ensures AllowedIds(Some(env)) == {}
    ensures !AccessDenied(AllowedIds(Some(env)), userId)
  {
    var raw := Strip(env);
    if raw != "" {
      var parts := Split(raw, ',');
      var vals := Parsed(parts);
      forall k | 0 <= k < |vals| ensures vals[k].None? {
        ParsedAt(parts, k);
      }
      NoValues(vals);
    }
  }

  /** Values none of which is an integer contribute nothing. */
  lemma {:induction false} NoValues(vals: seq<Option<int>>)
    requires forall k :: 0 <= k < |vals| ==> vals[k].None?
    ensures IdsOf(vals) == {}
    decreases |vals|
  {
    if vals != [] {
      NoValues(vals[..|vals| - 1]);
    }
  }

  /** With `ALLOWLIST_USER_IDS` set to a comma-separated list of ids, a user
      is let in exactly when their id is on the list, and a sender without an
      id is refused; with it blank or unset, everybody is let in. */
  lemma AccessByList(ids: seq<int>, userId: int)
    requires |ids| > 0
    ensures !AccessDenied(AllowedIds(Some(Join(Spellings(ids), ','))), Some(userId)) <==> userId in ids
    ensures AccessDenied(AllowedIds(Some(Join(Spellings(ids), ','))), None)
    ensures forall env :: Strip(env) == "" ==> !AccessDenied(AllowedIds(Some(env)), Some(userId))
    ensures !AccessDenied(AllowedIds(None), Some(userId))
  {
    AllowlistRoundTrip(ids, userId);
    AllowlistRoundTrip(ids, ids[0]);
  }
}
