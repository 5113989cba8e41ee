/**
 Slash-separated paths as strings, and the component lists they stand for.
 */
module Paths {

  type Path = seq<string>

  /** A component a path can hold: not empty, no slash. */
  predicate GoodPart(p: string) {
    p != "" && '/' !in p
  }

  ghost predicate Good(parts: Path) {
    forall p :: p in parts ==> GoodPart(p)
  }

  /** The pieces of `s` between slashes, empty ones included. */
  function Split(s: string): (r: seq<string>)
    ensures r != []
  {
    if s == "" then [""]
    else if s[0] == '/' then [""] + Split(s[1..])
    else
      var r := Split(s[1..]);
      [[s[0]] + r[0]] + r[1..]
  }

  function NonEmpty(parts: seq<string>): seq<string> {
    if parts == [] then [] else (if parts[0] == "" then [] else [parts[0]]) + NonEmpty(parts[1..])
  }

  /** The components of a path: its non-empty pieces. */
  function Components(s: string): Path {
    NonEmpty(Split(s))
  }

  /** Each component with a slash before it. */
  function Slashed(parts: Path): string {
    if parts == [] then "" else "/" + parts[0] + Slashed(parts[1..])
  }

  /** The absolute path naming `parts`. */
  function Render(parts: Path): string {
    if parts == [] then "/" else Slashed(parts)
  }

  lemma {:induction false} SplitPart(p: string, rest: string)
    requires '/' !in p
    ensures Split(p + "/" + rest) == [p] + Split(rest)
    ensures Split(p) == [p]
  {
    var s := p + "/" + rest;
    if p == "" {
      assert s[1..] == rest;
    } else {
      SplitPart(p[1..], rest);
      assert s[1..] == p[1..] + "/" + rest;
      assert [p[0]] + p[1..] == p;
    }
  }

  lemma {:induction false} NonEmptyConcat(a: seq<string>, b: seq<string>)
    ensures NonEmpty(a + b) == NonEmpty(a) + NonEmpty(b)
  {
    if a == [] {
      assert a + b == b;
    } else {
      assert (a + b)[1..] == a[1..] + b;
      NonEmptyConcat(a[1..], b);
    }
  }

  /** Components are always proper ones. */
  lemma {:induction false} ComponentsGood(s: string)
    ensures Good(Components(s))
  {
    SplitNoSlash(s);
    NonEmptyGood(Split(s));
  }

  lemma {:induction false} SplitNoSlash(s: string)
    ensures forall p :: p in Split(s) ==> '/' !in p
  {
    if s != "" {
      SplitNoSlash(s[1..]);
      var r := Split(s[1..]);
      assert r[0] in r;
      forall p | p in Split(s) ensures '/' !in p {
        if s[0] != '/' && p != [s[0]] + r[0] { assert p in r[1..]; }
      }
    }
  }

  lemma {:induction false} NonEmptyGood(parts: seq<string>)
    ensures forall p :: p in NonEmpty(parts) <==> p in parts && p != ""
  {
    if parts != [] {
      NonEmptyGood(parts[1..]);
      assert parts == [parts[0]] + parts[1..];
    }
  }

  lemma NonEmptyCons(p: string, parts: seq<string>)
    ensures NonEmpty([p] + parts) == (if p == "" then [] else [p]) + NonEmpty(parts)
  {
    assert ([p] + parts)[1..] == parts;
  }

  /** One component more in front. */
  lemma ComponentsCons(p: string, s: string)
    requires GoodPart(p) && (s == "" || s[0] == '/')
    ensures Components("/" + p + s) == [p] + Components(s)
  {
    var all := "/" + p + s;
    assert all[1..] == p + s;
    assert Split(all) == [""] + Split(p + s);
    NonEmptyCons("", Split(p + s));
    if s == "" {
      assert p + s == p;
      SplitPart(p, "");
      NonEmptyCons(p, []);
      NonEmptyCons("", []);
      assert [""] + [] == [""] && [p] + [] == [p];
    } else {
      var t := s[1..];
      assert p + s == p + "/" + t;
      SplitPart(p, t);
      NonEmptyCons(p, Split(t));
      NonEmptyCons("", Split(t));
    }
  }

  /** Reading back a rendered path gives its components. */
  lemma {:induction false} ComponentsOfSlashed(parts: Path)
    requires Good(parts)
    ensures Components(Slashed(parts)) == parts
  {
    if parts == [] {
      NonEmptyCons("", []);
      assert [""] + [] == [""];
    } else {
      ComponentsOfSlashed(parts[1..]);
      ComponentsCons(parts[0], Slashed(parts[1..]));
      assert [parts[0]] + parts[1..] == parts;
    }
  }

  lemma RoundTrip(parts: Path)
    requires Good(parts)
    ensures Components(Render(parts)) == parts
  {
    ComponentsOfSlashed(parts);
    if parts == [] {
      assert Split("/") == [""] + Split("");
      NonEmptyCons("", [""]);
    }
  }
}
