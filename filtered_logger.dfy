/**
 * PII redaction in log lines: `filter_datum` and `RedactingFormatter.format`.
 *
 * `re.sub(field + "=.*?" + separator, field + "=" + redaction + separator, message)`
 * is modelled as the scan Python's regular expression engine performs, for
 * field names and separators without regular-expression metacharacters:
 * from left to right, at each position it tries `field=`, then the shortest
 * run of non-newline characters followed by the separator; a match is
 * replaced and the scan resumes after it, otherwise one character is kept.
 */
module FilteredLogger {
  import opened Wrappers
  import opened Strings

  const REDACTION: string := "***"
  const SEPARATOR: string := ";"
  const PII_FIELDS: seq<string> := ["name", "email", "phone", "ssn", "password"]

  /** The separator occurs in `m` at position `j`. */
  predicate SepAt(sep: string, m: string, j: nat)
  {
    j + |sep| <= |m| && m[j..j + |sep|] == sep
  }

  /**
   * The lazy `.*?` followed by the separator, from position `from`: the
   * first position at which the separator occurs, provided no newline
   * comes before it.
   */
  function LazyRun(sep: string, m: string, from: nat): (r: Option<nat>)
    requires from <= |m|
    ensures r.Some? ==> from <= r.value && SepAt(sep, m, r.value)
    ensures r.Some? ==> forall j :: from <= j < r.value ==> !SepAt(sep, m, j) && m[j] != '\n'
    ensures forall j :: from <= j && SepAt(sep, m, j) && (forall i :: from <= i < j ==> m[i] != '\n') ==>
              r.Some? && r.value <= j
    decreases |m| - from
  {
    if SepAt(sep, m, from) then Some(from)
    else if from == |m| || m[from] == '\n' then None
    else LazyRun(sep, m, from + 1)
  }

  /** The end of a match of `field=.*?separator` at the start of `m`, if it matches there. */
  function MatchAt(field: string, sep: string, m: string): (r: Option<nat>)
    ensures r.Some? ==> |field| + 1 <= r.value <= |m| && StartsWith(m, field + "=")
  {
    if !StartsWith(m, field + "=") then None
    else match LazyRun(sep, m, |field| + 1)
      case None => None
      case Some(j) => Some(j + |sep|)
  }

  /** `re.sub` for one field: every non-overlapping match, leftmost first, becomes `field=redaction separator`. */
  function RedactField(field: string, redaction: string, sep: string, m: string): string
    decreases |m|
  {
    if m == [] then []
    else match MatchAt(field, sep, m)
      case Some(end) => field + "=" + redaction + sep + RedactField(field, redaction, sep, m[end..])
      case None => [m[0]] + RedactField(field, redaction, sep, m[1..])
  }

  /** `filter_datum(fields, redaction, message, separator)`: one `re.sub` per field, in list order. */
  function FilterSpec(fields: seq<string>, redaction: string, m: string, sep: string): string
    decreases |fields|
  {
    if fields == [] then m
    else FilterSpec(fields[1..], redaction, RedactField(fields[0], redaction, sep, m), sep)
  }

  /** `filter_datum`: the loop reassigns the message once per field. */
  method FilterDatum(fields: seq<string>, redaction: string, message: string, separator: string)
    returns (r: string)
    ensures r == FilterSpec(fields, redaction, message, separator)
    ensures fields == [] ==> r == message
  {
    r := message;
    for i := 0 to |fields|
      invariant FilterSpec(fields[i..], redaction, r, separator) == FilterSpec(fields, redaction, message, separator)
    {
      assert fields[i..][1..] == fields[i + 1..];
      r := RedactField(fields[i], redaction, separator, r);
    }
  }

  /** Fields are applied in list order, each pass working on the previous pass's output. */
  lemma {:induction false} FilterSpecAppend(fs1: seq<string>, fs2: seq<string>, redaction: string, m: string, sep: string)
    ensures FilterSpec(fs1 + fs2, redaction, m, sep) == FilterSpec(fs2, redaction, FilterSpec(fs1, redaction, m, sep), sep)
    decreases |fs1|
  {
    if fs1 == [] {
      assert fs1 + fs2 == fs2;
    } else {
      assert (fs1 + fs2)[0] == fs1[0];
      assert (fs1 + fs2)[1..] == fs1[1..] + fs2;
      FilterSpecAppend(fs1[1..], fs2, redaction, RedactField(fs1[0], redaction, sep, m), sep);
    }
  }

  /**
   * Text before the first match is kept as it is: when no match starts in
   * `u`, redacting `u + rest` is `u` followed by redacting `rest`.
   */
  lemma {:induction false} KeepsUnmatchedPrefix(field: string, redaction: string, sep: string, u: string, rest: string)
    requires forall i :: 0 <= i < |u| ==> MatchAt(field, sep, (u + rest)[i..]).None?
    ensures RedactField(field, redaction, sep, u + rest) == u + RedactField(field, redaction, sep, rest)
    decreases |u|
  {
    if u != [] {
      var m := u + rest;
      assert m[0..] == m;
      assert MatchAt(field, sep, m).None?;
      assert m[1..] == u[1..] + rest;
      assert RedactField(field, redaction, sep, m) == [m[0]] + RedactField(field, redaction, sep, m[1..]);
      forall i | 0 <= i < |u[1..]| ensures MatchAt(field, sep, (u[1..] + rest)[i..]).None? {
        assert (u[1..] + rest)[i..] == m[i + 1..];
      }
      KeepsUnmatchedPrefix(field, redaction, sep, u[1..], rest);
      assert m[0] == u[0];
      assert [u[0]] + (u[1..] + RedactField(field, redaction, sep, rest)) == u + RedactField(field, redaction, sep, rest);
    } else {
      assert u + rest == rest;
    }
  }
  /** A message in which the separator never occurs is left unchanged: no `field=` can complete a match. */
  lemma {:induction false} NoSeparatorUnchanged(field: string, redaction: string, sep: string, m: string)
    requires forall j :: 0 <= j <= |m| ==> !SepAt(sep, m, j)
    ensures RedactField(field, redaction, sep, m) == m
    decreases |m|
  {
    if m != [] {
      assert MatchAt(field, sep, m).None? by {
        if StartsWith(m, field + "=") {
          var r := LazyRun(sep, m, |field| + 1);
          assert r.Some? ==> SepAt(sep, m, r.value);
        }
      }
      forall j | 0 <= j <= |m[1..]| ensures !SepAt(sep, m[1..], j) {
        if SepAt(sep, m[1..], j) {
          assert m[1..][j..j + |sep|] == m[j + 1..j + 1 + |sep|];
          assert SepAt(sep, m, j + 1);
        }
      }
      NoSeparatorUnchanged(field, redaction, sep, m[1..]);
      assert m == [m[0]] + m[1..];
    }
  }

  /** A message in which `field=` never occurs is left unchanged. */
  lemma {:induction false} NoFieldUnchanged(field: string, redaction: string, sep: string, m: string)
    requires forall j :: 0 <= j <= |m| ==> !StartsWith(m[j..], field + "=")
    ensures RedactField(field, redaction, sep, m) == m
  {
    forall i | 0 <= i < |m| ensures MatchAt(field, sep, (m + [])[i..]).None? {
      assert (m + [])[i..] == m[i..];
    }
    KeepsUnmatchedPrefix(field, redaction, sep, m, []);
    assert m + [] == m;
  }

  // ---------------------------------------------------------------------
  // Log lines made of `key=value<separator>` pairs
  // ---------------------------------------------------------------------

  datatype Pair = Pair(key: string, value: string)

  /** Text that holds neither the separator character, nor `=`, nor a newline. */
  predicate Plain(s: string, c: char)
  {
    forall i :: 0 <= i < |s| ==> s[i] != c && s[i] != '=' && s[i] != '\n'
  }

  predicate PlainPairs(ps: seq<Pair>, c: char)
  {
    forall i :: 0 <= i < |ps| ==> Plain(ps[i].key, c) && Plain(ps[i].value, c)
  }

  function PairText(p: Pair, c: char): string
  {
    p.key + "=" + p.value + [c]
  }

  /** The log line `key1=value1;key2=value2;...`. */
  function Render(ps: seq<Pair>, c: char): string
  {
    if ps == [] then [] else PairText(ps[0], c) + Render(ps[1..], c)
  }

  /**
   * A key is caught by a field when it ends with the field: the match is a
   * substring search, so field `name` also catches key `username`.
   */
  predicate Sensitive(fields: seq<string>, key: string)
  {
    exists i :: 0 <= i < |fields| && EndsWith(key, fields[i])
  }

  /** The intended result: the value of every caught key becomes the redaction. */
  function RedactPairs(fields: seq<string>, redaction: string, ps: seq<Pair>): (r: seq<Pair>)
    ensures |r| == |ps|
    ensures forall i :: 0 <= i < |ps| ==> r[i].key == ps[i].key
    ensures forall i :: 0 <= i < |ps| ==> r[i].value == if Sensitive(fields, ps[i].key) then redaction else ps[i].value
  {
    if ps == [] then []
    else
      var p := ps[0];
      [if Sensitive(fields, p.key) then Pair(p.key, redaction) else p] + RedactPairs(fields, redaction, ps[1..])
  }

  /** Where each character of a rendered pair sits. */
  lemma PairTextLayout(p: Pair, c: char, rest: string)
    ensures |PairText(p, c)| == |p.key| + |p.value| + 2
    ensures forall j :: 0 <= j < |p.key| ==> (PairText(p, c) + rest)[j] == p.key[j]
    ensures (PairText(p, c) + rest)[|p.key|] == '='
    ensures forall j :: |p.key| < j <= |p.key| + |p.value| ==> (PairText(p, c) + rest)[j] == p.value[j - |p.key| - 1]
    ensures (PairText(p, c) + rest)[|p.key| + |p.value| + 1] == c
  {
  }

  /**
   * The only place inside the first pair of a line where a match of
   * `field=` can start is where the field ends the key.
   */
  lemma MatchInsidePair(field: string, c: char, p: Pair, rest: string, i: nat)
    requires Plain(field, c) && Plain(p.key, c) && Plain(p.value, c) && c != '='
    requires i < |PairText(p, c)|
    ensures MatchAt(field, [c], (PairText(p, c) + rest)[i..]).Some? ==> i + |field| == |p.key| && EndsWith(p.key, field)
  {
    var m := PairText(p, c) + rest;
    if StartsWith(m[i..], field + "=") {
      PairTextLayout(p, c, rest);
      var e := i + |field|;
      var eq := |p.key|;
      var sepPos := |p.key| + |p.value| + 1;
      assert m[e] == '=' by {
        assert m[i..][|field|] == m[e];
        assert (field + "=")[|field|] == '=';
      }
      assert forall j :: i <= j < e ==> m[j] == field[j - i] by {
        forall j | i <= j < e ensures m[j] == field[j - i] {
          assert m[i..][j - i] == m[j];
          assert m[i..][..|field| + 1][j - i] == (field + "=")[j - i];
        }
      }
      if e < eq {
        assert false;
      } else if eq < e < sepPos {
        assert false;
      } else if e == sepPos {
        assert false;
      } else if sepPos < e {
        assert false;
      }
      assert p.key[i..] == field by {
        forall j | 0 <= j < |field| ensures p.key[i..][j] == field[j] {
          assert m[i + j] == p.key[i + j];
        }
      }
    }
  }

  /** The lazy run from just after a pair's `=` stops at the separator that ends the pair. */
  lemma LazyRunStopsAtPairEnd(c: char, p: Pair, rest: string)
    requires Plain(p.value, c) && c != '\n'
    ensures LazyRun([c], PairText(p, c) + rest, |p.key| + 1) == Some(|p.key| + 1 + |p.value|)
  {
    var m := PairText(p, c) + rest;
    var from := |p.key| + 1;
    var end := from + |p.value|;
    PairTextLayout(p, c, rest);
    assert SepAt([c], m, end) by { assert m[end..end + 1] == [c]; }
    forall j | from <= j < end ensures !SepAt([c], m, j) && m[j] != '\n' {
      assert m[j] == p.value[j - from];
    }
  }

  /** A pair whose key is the field itself: its value is replaced, and the scan goes on after its separator. */
  lemma RedactAtMatch(field: string, redaction: string, c: char, value: string, rest: string)
    requires Plain(value, c) && c != '\n'
    ensures RedactField(field, redaction, [c], PairText(Pair(field, value), c) + rest) ==
            field + "=" + redaction + [c] + RedactField(field, redaction, [c], rest)
  {
    var t := PairText(Pair(field, value), c) + rest;
    assert t[..|field| + 1] == field + "=";
    LazyRunStopsAtPairEnd(c, Pair(field, value), rest);
    assert MatchAt(field, [c], t) == Some(|field| + |value| + 2);
    assert t[|field| + |value| + 2..] == rest;
  }

  /** A key that ends with the field, split into the text before the field and a pair keyed by the field itself. */
  lemma SplitKey(u: string, field: string, value: string, c: char, rest: string)
    ensures PairText(Pair(u + field, value), c) + rest == u + (PairText(Pair(field, value), c) + rest)
  {
  }

  /** Redacting the first pair of a line whose key ends with the field. */
  lemma RedactCaughtPair(field: string, redaction: string, c: char, p: Pair, rest: string)
    requires Plain(field, c) && Plain(p.key, c) && Plain(p.value, c) && c != '=' && c != '\n'
    requires EndsWith(p.key, field)
    ensures RedactField(field, redaction, [c], PairText(p, c) + rest) ==
            PairText(Pair(p.key, redaction), c) + RedactField(field, redaction, [c], rest)
  {
    var u := p.key[..|p.key| - |field|];
    var t := PairText(Pair(field, p.value), c) + rest;
    assert p.key == u + field;
    SplitKey(u, field, p.value, c, rest);
    SplitKey(u, field, redaction, c, RedactField(field, redaction, [c], rest));
    forall i | 0 <= i < |u| ensures MatchAt(field, [c], (u + t)[i..]).None? {
      MatchInsidePair(field, c, p, rest, i);
    }
    KeepsUnmatchedPrefix(field, redaction, [c], u, t);
    RedactAtMatch(field, redaction, c, p.value, rest);
  }

  /** Redacting the first pair of a line whose key does not end with the field: the pair is kept. */
  lemma RedactKeptPair(field: string, redaction: string, c: char, p: Pair, rest: string)
    requires Plain(field, c) && Plain(p.key, c) && Plain(p.value, c) && c != '='
    requires !EndsWith(p.key, field)
    ensures RedactField(field, redaction, [c], PairText(p, c) + rest) ==
            PairText(p, c) + RedactField(field, redaction, [c], rest)
  {
    forall i | 0 <= i < |PairText(p, c)| ensures MatchAt(field, [c], (PairText(p, c) + rest)[i..]).None? {
      MatchInsidePair(field, c, p, rest, i);
    }
    KeepsUnmatchedPrefix(field, redaction, [c], PairText(p, c), rest);
  }

  /** One field among the fields: a key is caught by `[f] + fs` when `f` or one of `fs` catches it. */
  lemma SensitiveCons(f: string, fs: seq<string>, key: string)
    ensures Sensitive([f] + fs, key) <==> EndsWith(key, f) || Sensitive(fs, key)
  {
    if Sensitive([f] + fs, key) {
      var j :| 0 <= j < |[f] + fs| && EndsWith(key, ([f] + fs)[j]);
      if j > 0 {
        assert ([f] + fs)[j] == fs[j - 1];
      }
    }
    if Sensitive(fs, key) {
      var j :| 0 <= j < |fs| && EndsWith(key, fs[j]);
      assert ([f] + fs)[j + 1] == fs[j];
    }
    if EndsWith(key, f) {
      assert ([f] + fs)[0] == f;
    }
  }

  /**
   * On a line of plain `key=value;` pairs, one field's `re.sub` replaces the
   * value of exactly the keys that end with the field, and keeps every key,
   * every separator and every other value.
   */
  lemma {:induction false} RedactFieldOnPairs(field: string, redaction: string, c: char, ps: seq<Pair>)
    requires Plain(field, c) && PlainPairs(ps, c) && c != '=' && c != '\n'
    ensures RedactField(field, redaction, [c], Render(ps, c)) == Render(RedactPairs([field], redaction, ps), c)
    decreases |ps|
  {
    if ps != [] {
      assert PlainPairs(ps[1..], c) by {
        forall i | 0 <= i < |ps[1..]| ensures Plain(ps[1..][i].key, c) && Plain(ps[1..][i].value, c) {
          assert ps[1..][i] == ps[i + 1];
        }
      }
      var rest := Render(ps[1..], c);
      SensitiveCons(field, [], ps[0].key);
      assert [field] + [] == [field];
      if EndsWith(ps[0].key, field) {
        RedactCaughtPair(field, redaction, c, ps[0], rest);
      } else {
        RedactKeptPair(field, redaction, c, ps[0], rest);
      }
      RedactFieldOnPairs(field, redaction, c, ps[1..]);
    }
  }

  /** Redacting for one field and then for others is redacting for all of them. */
  lemma RedactPairsCompose(f: string, fs: seq<string>, redaction: string, ps: seq<Pair>)
    ensures RedactPairs(fs, redaction, RedactPairs([f], redaction, ps)) == RedactPairs([f] + fs, redaction, ps)
  {
    var a := RedactPairs(fs, redaction, RedactPairs([f], redaction, ps));
    var b := RedactPairs([f] + fs, redaction, ps);
    forall i | 0 <= i < |ps| ensures a[i] == b[i] {
      SensitiveCons(f, fs, ps[i].key);
      SensitiveCons(f, [], ps[i].key);
      assert [f] + [] == [f];
    }
  }

  /**
   * `filter_datum` on a line of plain `key=value;` pairs, with a plain
   * redaction: every value whose key ends with one of the fields becomes
   * the redaction; keys, separators and all other values are kept.
   */
  lemma {:induction false} FilterOnPairs(fields: seq<string>, redaction: string, c: char, ps: seq<Pair>)
    requires forall i :: 0 <= i < |fields| ==> Plain(fields[i], c)
    requires PlainPairs(ps, c) && Plain(redaction, c) && c != '=' && c != '\n'
    ensures FilterSpec(fields, redaction, Render(ps, c), [c]) == Render(RedactPairs(fields, redaction, ps), c)
    decreases |fields|
  {
    if fields == [] {
      assert RedactPairs(fields, redaction, ps) == ps by {
        var r := RedactPairs(fields, redaction, ps);
        forall i | 0 <= i < |ps| ensures r[i] == ps[i] {
        }
      }
    } else {
      var f := fields[0];
      RedactFieldOnPairs(f, redaction, c, ps);
      var ps' := RedactPairs([f], redaction, ps);
      assert PlainPairs(ps', c);
      FilterOnPairs(fields[1..], redaction, c, ps');
      RedactPairsCompose(f, fields[1..], redaction, ps);
      assert [f] + fields[1..] == fields;
    }
  }

  /** A key is caught by a list of five fields exactly when it ends with one of them. */
  lemma SensitiveFive(a: string, b: string, c: string, d: string, e: string, key: string)
    ensures Sensitive([a, b, c, d, e], key) <==>
              EndsWith(key, a) || EndsWith(key, b) || EndsWith(key, c) || EndsWith(key, d) || EndsWith(key, e)
  {
    var fs := [a, b, c, d, e];
    if Sensitive(fs, key) {
      var i :| 0 <= i < |fs| && EndsWith(key, fs[i]);
      assert fs[i] in {a, b, c, d, e};
    }
    if EndsWith(key, a) { assert EndsWith(key, fs[0]); }
    if EndsWith(key, b) { assert EndsWith(key, fs[1]); }
    if EndsWith(key, c) { assert EndsWith(key, fs[2]); }
    if EndsWith(key, d) { assert EndsWith(key, fs[3]); }
    if EndsWith(key, e) { assert EndsWith(key, fs[4]); }
  }

  /**
   * The formatter of the `user_data` logger hides the values of exactly the
   * keys that end with one of the five PII names.
   */
  lemma PiiKeys(key: string)
    ensures Sensitive(PII_FIELDS, key) <==>
              EndsWith(key, "name") || EndsWith(key, "email") || EndsWith(key, "phone") ||
              EndsWith(key, "ssn") || EndsWith(key, "password")
  {
    SensitiveFive("name", "email", "phone", "ssn", "password", key);
  }

  /** The formatter of the `user_data` logger, with the PII fields it hides. */
  datatype RedactingFormatter = RedactingFormatter(fields: seq<string>)
  {
    /**
     * `format(record)`: `filter_datum` with `***` and `;` applied to the
     * text the standard formatter produced for the record.
     */
    method Format(formatted: string) returns (r: string)
      ensures r == FilterSpec(fields, REDACTION, formatted, SEPARATOR)
      ensures forall ps ::
                (formatted == Render(ps, ';') && PlainPairs(ps, ';') &&
                 (forall i :: 0 <= i < |fields| ==> Plain(fields[i], ';'))) ==>
                r == Render(RedactPairs(fields, REDACTION, ps), ';')
    {
      r := FilterDatum(fields, REDACTION, formatted, SEPARATOR);
      forall ps | formatted == Render(ps, ';') && PlainPairs(ps, ';') &&
                  (forall i :: 0 <= i < |fields| ==> Plain(fields[i], ';'))
        ensures r == Render(RedactPairs(fields, REDACTION, ps), ';')
      {
        assert Plain(REDACTION, ';');
        FilterOnPairs(fields, REDACTION, ';', ps);
      }
    }
  }

  lemma RenderOne(a: Pair, c: char)
    ensures Render([a], c) == PairText(a, c)
  {
    assert [a][1..] == [];
  }

  lemma RenderTwo(a: Pair, b: Pair, c: char)
    ensures Render([a, b], c) == PairText(a, c) + PairText(b, c)
  {
    assert [a, b][1..] == [b];
    RenderOne(b, c);
  }

  /** The intended result on the example line: the password's value replaced, the name's kept. */
  lemma PasswordLineRedacted(name: string, secret: string)
    ensures Render(RedactPairs(["password"], REDACTION, [Pair("name", name), Pair("password", secret)]), ';') ==
            "name=" + name + ";password=" + REDACTION + ";"
  {
    var r := RedactPairs(["password"], REDACTION, [Pair("name", name), Pair("password", secret)]);
    assert EndsWith("password", ["password"][0]);
    assert r == [Pair("name", name), Pair("password", REDACTION)];
    RenderTwo(r[0], r[1], ';');
  }

  /** The example of the redaction rule: only the password's value is hidden, whatever the values are. */
  lemma PasswordExample(name: string, secret: string)
    requires Plain(name, ';') && Plain(secret, ';')
    ensures FilterSpec(["password"], REDACTION, "name=" + name + ";password=" + secret + ";", SEPARATOR) ==
            "name=" + name + ";password=" + REDACTION + ";"
  {
    var ps := [Pair("name", name), Pair("password", secret)];
    var line := "name=" + name + ";password=" + secret + ";";
    RenderTwo(ps[0], ps[1], ';');
    assert Render(ps, ';') == line;
    FilterOnPairs(["password"], REDACTION, ';', ps);
    assert SEPARATOR == [';'];
    PasswordLineRedacted(name, secret);
  }

  /** The intended result on a line with a `username` key: its value replaced. */
  lemma UserLineRedacted(user: string)
    ensures Render(RedactPairs(["name"], REDACTION, [Pair("username", user)]), ';') == "username=" + REDACTION + ";"
  {
    var r := RedactPairs(["name"], REDACTION, [Pair("username", user)]);
    assert EndsWith("username", ["name"][0]);
    assert r == [Pair("username", REDACTION)];
    RenderOne(r[0], ';');
  }

  /** The substring search also catches a longer key that ends with the field: `username` for `name`. */
  lemma LongerKeyExample(user: string)
    requires Plain(user, ';')
    ensures FilterSpec(["name"], REDACTION, "username=" + user + ";", SEPARATOR) == "username=" + REDACTION + ";"
  {
    var ps := [Pair("username", user)];
    RenderOne(ps[0], ';');
    assert Render(ps, ';') == "username=" + user + ";";
    assert PlainPairs(ps, ';') by {
      assert Plain("username", ';');
    }
    assert Plain(["name"][0], ';');
    FilterOnPairs(["name"], REDACTION, ';', ps);
    assert SEPARATOR == [';'];
    UserLineRedacted(user);
  }
}
