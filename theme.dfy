/** `Theme.kt`: the application's themes and the lookup `Theme.from`. */
module Themes {
  import opened Wrappers
  import opened Text

  datatype Theme = LIGHT | DARK | FOLLOW_SYSTEM

  /** The enum constant's `name`. */
  function Name(t: Theme): string {
    match t
    case LIGHT => "LIGHT"
    case DARK => "DARK"
    case FOLLOW_SYSTEM => "FOLLOW_SYSTEM"
  }

  /** The stored `value` of each theme. */
  function Value(t: Theme): string {
    match t
    case LIGHT => "light"
    case DARK => "dark"
    case FOLLOW_SYSTEM => "follow_system"
  }

  /** `Theme.entries`, in declaration order. */
  const Entries: seq<Theme> := [LIGHT, DARK, FOLLOW_SYSTEM]

  /** The predicate given to `find`: the name or the value equals `value`, both lower-cased. */
  predicate Matches(t: Theme, value: string) {
    Lower(Name(t)) == Lower(value) || Lower(Value(t)) == Lower(value)
  }

  /** `entries[i]` matches and no entry before it does. */
  predicate FirstMatchAt(entries: seq<Theme>, value: string, i: int) {
    0 <= i < |entries| && Matches(entries[i], value) && forall j :: 0 <= j < i ==> !Matches(entries[j], value)
  }

  /** `entries.find { … }`: the first entry that matches, if any. */
  function Find(entries: seq<Theme>, value: string): (r: Option<Theme>)
    ensures r.None? <==> forall i :: 0 <= i < |entries| ==> !Matches(entries[i], value)
    ensures r.Some? ==> exists i :: FirstMatchAt(entries, value, i) && entries[i] == r.value
    decreases |entries|
  {
    if entries == [] then None
    else if Matches(entries[0], value) then Some(entries[0])
    else
      var r := Find(entries[1..], value);
      if r.Some? then
        var i :| FirstMatchAt(entries[1..], value, i) && entries[1..][i] == r.value;
        assert FirstMatchAt(entries, value, i + 1);
        r
      else r
  }

  /** `Theme.from(value)`: the first matching theme, `FOLLOW_SYSTEM` when none matches. */
  function From(value: string): (t: Theme)
    ensures Matches(t, value) || (t == FOLLOW_SYSTEM && forall u :: !Matches(u, value))
  {
    var found := Find(Entries, value);
    if found.None? then
      assert forall u :: !Matches(u, value) by {
        forall u ensures !Matches(u, value) {
          assert Entries[if u == LIGHT then 0 else if u == DARK then 1 else 2] == u;
        }
      }
      FOLLOW_SYSTEM
    else found.value
  }

  /** Lower-casing a theme's name gives its value, and values are already lower case. */
  lemma LowerNameIsValue(t: Theme)
    ensures Lower(Name(t)) == Value(t)
    ensures Lower(Value(t)) == Value(t)
  {
    match t
    case LIGHT =>
      assert Lower("LIGHT") == "light" by {
        var l := Lower("LIGHT");
        assert l[0] == 'l' && l[1] == 'i' && l[2] == 'g' && l[3] == 'h' && l[4] == 't';
      }
      assert Lower("light") == "light";
    case DARK =>
      assert Lower("DARK") == "dark" by {
        var l := Lower("DARK");
        assert l[0] == 'd' && l[1] == 'a' && l[2] == 'r' && l[3] == 'k';
      }
      assert Lower("dark") == "dark";
    case FOLLOW_SYSTEM =>
      assert Lower("FOLLOW_SYSTEM") == "follow_system" by {
        var l := Lower("FOLLOW_SYSTEM");
        assert l[0] == 'f' && l[1] == 'o' && l[2] == 'l' && l[3] == 'l' && l[4] == 'o' && l[5] == 'w';
        assert l[6] == '_' && l[7] == 's' && l[8] == 'y' && l[9] == 's' && l[10] == 't' && l[11] == 'e' && l[12] == 'm';
      }
      assert Lower("follow_system") == "follow_system";
  }

  /** A theme matches exactly the strings whose lower-case form is its value. */
  lemma MatchesIff(t: Theme, value: string)
    ensures Matches(t, value) <==> Lower(value) == Value(t)
  {
    LowerNameIsValue(t);
  }

  /** `from(t.value) == t`: the stored value reads back as the same theme. */
  lemma FromValue(t: Theme)
    ensures From(Value(t)) == t
  {
    LowerNameIsValue(t);
    MatchesIff(From(Value(t)), Value(t));
  }

  /** `from(t.name) == t`: the enum name reads back as the same theme. */
  lemma FromName(t: Theme)
    ensures From(Name(t)) == t
  {
    LowerNameIsValue(t);
    MatchesIff(t, Name(t));
    MatchesIff(From(Name(t)), Name(t));
  }

  /** Matching ignores case: a string and its lower-case form give the same theme. */
  lemma FromIgnoresCase(s: string)
    ensures From(s) == From(Lower(s))
  {
    LowerIdempotent(s);
    forall u: Theme ensures Matches(u, s) == Matches(u, Lower(s)) {
      MatchesIff(u, s);
      MatchesIff(u, Lower(s));
    }
    MatchesIff(From(s), s);
    MatchesIff(From(Lower(s)), Lower(s));
  }

  /** A string that is no theme's name or value, the empty one included, gives `FOLLOW_SYSTEM`. */
  lemma FromUnknown(s: string)
    requires forall t: Theme :: Lower(s) != Value(t)
    ensures From(s) == FOLLOW_SYSTEM
  {
    MatchesIff(From(s), s);
  }

  lemma FromEmpty()
    ensures From("") == FOLLOW_SYSTEM
  {
    forall t: Theme ensures Lower("") != Value(t) {
      LowerNameIsValue(t);
    }
    FromUnknown("");
  }

  /** The result is the first entry in declaration order whose name or value matches. */
  lemma FromIsFirstMatch(s: string)
    ensures (exists t :: Matches(t, s)) ==> exists i :: FirstMatchAt(Entries, s, i) && Entries[i] == From(s)
  {
    if exists t :: Matches(t, s) {
      var t :| Matches(t, s);
      var i := if t == LIGHT then 0 else if t == DARK then 1 else 2;
      assert Entries[i] == t;
      var found := Find(Entries, s);
      assert found.Some?;
      assert From(s) == found.value;
    }
  }
}
