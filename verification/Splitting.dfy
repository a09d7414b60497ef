/** Cutting text at a separator character, and joining it again. */
module Splitting {

  /** strings.Split(s, sep) for a separator of one character */
  function Parts(s: string, sep: char): (parts: seq<string>)
    ensures |parts| >= 1
  {
    if s == "" then [""]
    else if s[0] == sep then [""] + Parts(s[1..], sep)
    else var rest := Parts(s[1..], sep); [[s[0]] + rest[0]] + rest[1..]
  }

  function Rejoin(parts: seq<string>, sep: char): string
    requires |parts| >= 1
  {
    if |parts| == 1 then parts[0] else parts[0] + [sep] + Rejoin(parts[1..], sep)
  }

  lemma {:induction false} RejoinParts(s: string, sep: char)
    ensures Rejoin(Parts(s, sep), sep) == s
  {
    if s != "" {
      RejoinParts(s[1..], sep);
      var rest := Parts(s[1..], sep);
      if s[0] == sep {
        assert ([""] + rest)[1..] == rest;
        assert s == "" + [sep] + s[1..];
      } else {
        assert Parts(s, sep)[1..] == rest[1..];
        assert s == [s[0]] + s[1..];
        if |rest| > 1 {
          assert [s[0]] + (rest[0] + [sep] + Rejoin(rest[1..], sep))
              == ([s[0]] + rest[0]) + [sep] + Rejoin(rest[1..], sep);
        }
      }
    }
  }

  /** A separator in front adds an empty part; anything else extends the first part. */
  function Cons(c: char, rest: seq<string>, sep: char): seq<string>
    requires |rest| >= 1
  {
    if c == sep then [""] + rest else [[c] + rest[0]] + rest[1..]
  }

  lemma PartsCons(c: char, s: string, sep: char)
    ensures Parts([c] + s, sep) == Cons(c, Parts(s, sep), sep)
  {
    assert ([c] + s)[1..] == s;
  }

  lemma ConsAppend(c: char, x: seq<string>, y: seq<string>, sep: char)
    requires |x| >= 1
    ensures Cons(c, x + y, sep) == Cons(c, x, sep) + y
  {}

  lemma StringCons(a: string, b: string)
    requires a != ""
    ensures a == [a[0]] + a[1..] && a + b == [a[0]] + (a[1..] + b)
  {}

  /** Cutting at a separator in the middle. */
  lemma {:induction false} PartsAppend(a: string, b: string, sep: char)
    ensures Parts(a + ([sep] + b), sep) == Parts(a, sep) + Parts(b, sep)
  {
    var s := [sep] + b;
    if a == "" {
      assert a + s == s;
      PartsCons(sep, b, sep);
    } else {
      hide Parts, Cons;
      StringCons(a, s);
      PartsAppend(a[1..], b, sep);
      PartsCons(a[0], a[1..] + s, sep);
      PartsCons(a[0], a[1..], sep);
      ConsAppend(a[0], Parts(a[1..], sep), Parts(b, sep), sep);
    }
  }

  lemma {:induction false} PartsOfOne(a: string, sep: char)
    requires sep !in a
    ensures Parts(a, sep) == [a]
  {
    if a != "" {
      assert a[0] in a && sep !in a[1..];
      PartsOfOne(a[1..], sep);
      assert [a[0]] + a[1..] == a;
    }
  }

  lemma {:induction false} PartsSepFree(s: string, sep: char)
    ensures forall p <- Parts(s, sep) :: sep !in p
  {
    if s != "" {
      PartsSepFree(s[1..], sep);
      var rest := Parts(s[1..], sep);
      assert rest[0] in rest;
      if s[0] != sep {
        forall p <- Parts(s, sep)
          ensures sep !in p
        {
          assert p == [s[0]] + rest[0] || p in rest[1..];
        }
      }
    }
  }

  /** Joining parts without separators and cutting again gives the parts. */
  lemma {:induction false} PartsRejoin(parts: seq<string>, sep: char)
    requires |parts| >= 1 && forall p <- parts :: sep !in p
    ensures Parts(Rejoin(parts, sep), sep) == parts
  {
    assert parts[0] in parts;
    PartsOfOne(parts[0], sep);
    if |parts| > 1 {
      assert forall p <- parts[1..] :: p in parts;
      hide Parts;
      var rest := Rejoin(parts[1..], sep);
      PartsRejoin(parts[1..], sep);
      PartsAppend(parts[0], rest, sep);
      assert parts[0] + [sep] + rest == parts[0] + ([sep] + rest);
      assert parts == [parts[0]] + parts[1..];
    }
  }
}
