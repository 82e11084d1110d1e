/**
 * Turning a dotted Active Directory domain (`bolt.local`) into the
 * distinguished name used as the LDAP search base (`dc=bolt,dc=local`),
 * through Ruby's `String#split` and `Array#join`.
 */
module DomainNames {

  /** Every field of `s` between occurrences of `sep`, empty fields included. */
  function SplitAll(s: string, sep: char): (fields: seq<string>)
    ensures |fields| >= 1
    decreases |s|
  {
    if s == [] then [""]
    else if s[0] == sep then [""] + SplitAll(s[1..], sep)
    else
      var rest := SplitAll(s[1..], sep);
      [[s[0]] + rest[0]] + rest[1..]
  }

  /** `xs` with its trailing empty strings removed. */
  function DropTrailingEmpty(xs: seq<string>): (r: seq<string>)
    ensures r <= xs
    ensures forall i :: |r| <= i < |xs| ==> xs[i] == ""
    ensures r == [] || r[|r| - 1] != ""
  {
    if xs == [] then []
    else if xs[|xs| - 1] == "" then DropTrailingEmpty(xs[..|xs| - 1])
    else xs
  }

  /**
   * Ruby's `s.split(sep)` for a one-character separator: all fields, with
   * trailing empty fields dropped (so `"".split('.')` and `"..".split('.')`
   * are both empty, while `".a".split('.')` keeps its leading empty field).
   */
  function RubySplit(s: string, sep: char): (r: seq<string>)
  {
    DropTrailingEmpty(SplitAll(s, sep))
  }

  /** Ruby's `xs.join(sep)`. */
  function Join(xs: seq<string>, sep: string): string
  {
    if xs == [] then ""
    else if |xs| == 1 then xs[0]
    else xs[0] + sep + Join(xs[1..], sep)
  }

  /** The search base built from a domain name: `'dc=' + labels.join(',dc=')`. */
  function SearchBase(domain: string): string
  {
    "dc=" + Join(RubySplit(domain, '.'), ",dc=")
  }

  /** `"dc=" + label` for every label, in order. */
  function DcComponents(labels: seq<string>): (r: seq<string>)
    ensures |r| == |labels|
    ensures forall i :: 0 <= i < |labels| ==> r[i] == "dc=" + labels[i]
  {
    seq(|labels|, i requires 0 <= i < |labels| => "dc=" + labels[i])
  }

  // ---------------------------------------------------------------------
  // Properties of splitting and joining

  /** Joining all fields with the separator gives back the string. */
  lemma {:induction false} JoinSplitAll(s: string, sep: char)
    ensures Join(SplitAll(s, sep), [sep]) == s
    decreases |s|
  {
    if s == [] {
    } else if s[0] == sep {
      var rest := SplitAll(s[1..], sep);
      JoinSplitAll(s[1..], sep);
      assert SplitAll(s, sep) == [""] + rest;
      assert ([""] + rest)[1..] == rest;
      assert s == [sep] + s[1..];
    } else {
      var rest := SplitAll(s[1..], sep);
      JoinSplitAll(s[1..], sep);
      var fields := [[s[0]] + rest[0]] + rest[1..];
      assert fields[1..] == rest[1..];
      if |rest| == 1 {
        assert s == [s[0]] + s[1..];
      } else {
        assert Join(rest, [sep]) == rest[0] + [sep] + Join(rest[1..], [sep]);
        assert s == [s[0]] + s[1..];
      }
    }
  }

  /** No field holds the separator, and every character of a field comes from `s`. */
  lemma {:induction false} SplitAllFields(s: string, sep: char)
    ensures forall i :: 0 <= i < |SplitAll(s, sep)| ==> sep !in SplitAll(s, sep)[i]
    ensures forall i, x :: 0 <= i < |SplitAll(s, sep)| && x in SplitAll(s, sep)[i] ==> x in s
    decreases |s|
  {
    if s != [] {
      SplitAllFields(s[1..], sep);
      var rest := SplitAll(s[1..], sep);
      var fields := SplitAll(s, sep);
      assert forall x :: x in s[1..] ==> x in s;
      if s[0] == sep {
        assert forall i :: 1 <= i < |fields| ==> fields[i] == rest[i - 1];
      } else {
        assert forall i :: 1 <= i < |fields| ==> fields[i] == rest[i];
        assert fields[0] == [s[0]] + rest[0];
        assert forall x :: x in fields[0] ==> x == s[0] || x in rest[0];
      }
    }
  }

  /** Splitting a join gives back the parts when no part holds the separator. */
  lemma {:induction false} SplitAllJoin(xs: seq<string>, sep: char)
    requires |xs| >= 1
    requires forall i :: 0 <= i < |xs| ==> sep !in xs[i]
    ensures SplitAll(Join(xs, [sep]), sep) == xs
    decreases |xs|
  {
    if |xs| == 1 {
      SplitAllNoSep(xs[0], sep, []);
      assert xs[0] + [] == xs[0];
      assert Join(xs, [sep]) == xs[0];
      assert xs == [xs[0]];
    } else {
      var tail := Join(xs[1..], [sep]);
      SplitAllJoin(xs[1..], sep);
      SplitAllNoSep(xs[0], sep, [sep] + tail);
      assert Join(xs, [sep]) == xs[0] + ([sep] + tail);
      assert SplitAll([sep] + tail, sep) == [""] + xs[1..] by {
        assert ([sep] + tail)[1..] == tail;
      }
      assert SplitAll(Join(xs, [sep]), sep) == [xs[0] + ""] + xs[1..];
      assert xs[0] + "" == xs[0];
      assert [xs[0]] + xs[1..] == xs;
    }
  }

  /** A separator-free prefix is glued to the first field of what follows it. */
  lemma {:induction false} SplitAllNoSep(w: string, sep: char, t: string)
    requires sep !in w
    ensures SplitAll(w + t, sep) == [w + SplitAll(t, sep)[0]] + SplitAll(t, sep)[1..]
    decreases |w|
  {
    if w != [] {
      assert (w + t)[0] == w[0];
      assert (w + t)[1..] == w[1..] + t;
      SplitAllNoSep(w[1..], sep, t);
      assert [w[0]] + (w[1..] + SplitAll(t, sep)[0]) == w + SplitAll(t, sep)[0];
    } else {
      var fields := SplitAll(t, sep);
      assert w + t == t;
      assert w + fields[0] == fields[0];
      assert fields == [fields[0]] + fields[1..];
    }
  }

  /**
   * `RubySplit` is characterised by three facts: it is a prefix of all the
   * fields, only empty fields are dropped, and its last field is not empty.
   * Together with `JoinSplitAll` this says the labels glued back with dots,
   * plus some trailing dots, are the domain again.
   */
  lemma RubySplitSpec(s: string, sep: char)
    ensures RubySplit(s, sep) <= SplitAll(s, sep)
    ensures forall i :: |RubySplit(s, sep)| <= i < |SplitAll(s, sep)| ==> SplitAll(s, sep)[i] == ""
    ensures RubySplit(s, sep) == [] || RubySplit(s, sep)[|RubySplit(s, sep)| - 1] != ""
    ensures forall i :: 0 <= i < |RubySplit(s, sep)| ==> sep !in RubySplit(s, sep)[i]
  {
    SplitAllFields(s, sep);
  }

  /** Labels of a domain without commas hold no comma. */
  lemma LabelsWithoutComma(domain: string)
    requires ',' !in domain
    ensures forall i :: 0 <= i < |RubySplit(domain, '.')| ==> ',' !in RubySplit(domain, '.')[i]
  {
    SplitAllFields(domain, '.');
  }

  // ---------------------------------------------------------------------
  // Properties of the search base

  /** `"dc=" + labels.join(",dc=")` is the `dc=` components joined by commas. */
  lemma {:induction false} PrefixedJoin(labels: seq<string>)
    requires |labels| >= 1
    ensures "dc=" + Join(labels, ",dc=") == Join(DcComponents(labels), ",")
    decreases |labels|
  {
    if |labels| > 1 {
      PrefixedJoin(labels[1..]);
      assert DcComponents(labels)[1..] == DcComponents(labels[1..]);
    }
  }

  /**
   * For a domain with at least one label, the search base is one `dc=`
   * component per label, in order: splitting it at commas (when the domain
   * holds none) gives exactly `dc=<label>` for every label.
   */
  lemma SearchBaseComponents(domain: string)
    requires RubySplit(domain, '.') != []
    requires ',' !in domain
    ensures SplitAll(SearchBase(domain), ',') == DcComponents(RubySplit(domain, '.'))
    ensures |SplitAll(SearchBase(domain), ',')| == |RubySplit(domain, '.')|
  {
    var labels := RubySplit(domain, '.');
    PrefixedJoin(labels);
    LabelsWithoutComma(domain);
    var comps := DcComponents(labels);
    forall i | 0 <= i < |comps| ensures ',' !in comps[i] {
      assert comps[i] == "dc=" + labels[i];
    }
    SplitAllJoin(comps, ',');
  }

  /** The fields of `.local`. */
  lemma DotLocalFields()
    ensures SplitAll(".local", '.') == ["", "local"]
  {
    SplitAllNoSep("local", '.', "");
    assert "local" + "" == "local";
    assert ".local"[1..] == "local";
  }

  /** The labels of `bolt.local`. */
  lemma BoltLocalLabels()
    ensures RubySplit("bolt.local", '.') == ["bolt", "local"]
  {
    DotLocalFields();
    SplitAllNoSep("bolt", '.', ".local");
    assert "bolt" + ".local" == "bolt.local";
    assert "bolt" + "" == "bolt";
  }

  /** The example the source's authors use: `bolt.local` gives `dc=bolt,dc=local`. */
  lemma BoltLocal()
    ensures SearchBase("bolt.local") == "dc=bolt,dc=local"
  {
    BoltLocalLabels();
    assert Join(["bolt", "local"], ",dc=") == "bolt,dc=local";
  }
}
