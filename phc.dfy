/**
 * The self-describing password-hash string stored in the `password` column.
 * A hash is written as `$algorithm$version$params$salt$digest`, the shape the
 * Argon2 hasher prints in PHC string format; each field is free of `$`.
 * Parsing is splitting on `$`, and the model proves that parsing a formatted
 * hash gives the hash back.
 */
module Phc {
  import opened Wrappers

  /** One `$`-separated field of a PHC string. */
  type Field = s: string | '$' !in s

  /** A parsed PHC string. */
  datatype PasswordHash = PasswordHash(
    algorithm: Field,
    version: Field,
    params: Field,
    salt: Field,
    digest: Field)

  /** The fields of a PHC string joined by `$` separators. */
  function Join(fields: seq<string>): string
    requires |fields| >= 1
    decreases |fields|
  {
    if |fields| == 1 then fields[0] else fields[0] + "$" + Join(fields[1..])
  }

  /** Splits a string at every `$`; joining the pieces gives the string back. */
  function Split(s: string): (r: seq<Field>)
    ensures |r| >= 1
    ensures Join(r) == s
    decreases |s|
  {
    if s == [] then [[]]
    else
      var rest := Split(s[1..]);
      if s[0] == '$' then
        assert s == "$" + Join(rest);
        [[]] + rest
      else
        var first: Field := [s[0]] + rest[0];
        var r := [first] + rest[1..];
        assert r[1..] == rest[1..];
        assert s == [s[0]] + Join(rest);
        r
  }

  /** Splitting `f + t`, where `f` holds no separator, extends the first piece of `t`. */
  lemma {:induction false} SplitAfterField(f: Field, t: string)
    ensures Split(f + t) == [f + Split(t)[0]] + Split(t)[1..]
    decreases |f|
  {
    if f == [] {
      assert f + t == t;
      assert f + Split(t)[0] == Split(t)[0];
      assert [Split(t)[0]] + Split(t)[1..] == Split(t);
    } else {
      var tail: Field := f[1..];
      assert f[0] != '$' by { assert f[0] in f; }
      assert (f + t)[0] == f[0] && (f + t)[1..] == tail + t;
      SplitAfterField(tail, t);
      var rest := Split(tail + t);
      assert Split(f + t) == [[f[0]] + rest[0]] + rest[1..];
      assert rest[0] == tail + Split(t)[0] && rest[1..] == Split(t)[1..];
      assert [f[0]] + (tail + Split(t)[0]) == f + Split(t)[0];
    }
  }

  /** Splitting the join of separator-free fields gives the fields back. */
  lemma {:induction false} SplitJoin(fields: seq<Field>)
    requires |fields| >= 1
    ensures Split(Join(fields)) == fields
    decreases |fields|
  {
    if |fields| == 1 {
      SplitAfterField(fields[0], []);
      assert fields[0] + [] == fields[0];
    } else {
      var rest := fields[1..];
      SplitJoin(rest);
      assert Split("$" + Join(rest)) == [[]] + rest by {
        assert ("$" + Join(rest))[1..] == Join(rest);
      }
      assert Join(fields) == fields[0] + ("$" + Join(rest));
      SplitAfterField(fields[0], "$" + Join(rest));
      assert fields[0] + [] == fields[0];
      assert ([[]] + rest)[1..] == rest;
      assert [fields[0]] + rest == fields;
    }
  }

  /** The PHC string of a hash. */
  function Format(h: PasswordHash): (s: string)
    ensures |s| > 0 && s[0] == '$'
  {
    Join(["", h.algorithm, h.version, h.params, h.salt, h.digest])
  }

  /**
   * Parses a PHC string; a string that does not have the five-field shape
   * is rejected. Whatever is accepted formats back to the same string.
   */
  function Parse(s: string): (r: Option<PasswordHash>)
    ensures r.Some? ==> Format(r.value) == s
  {
    var fields := Split(s);
    if |fields| == 6 && fields[0] == [] then
      var h := PasswordHash(fields[1], fields[2], fields[3], fields[4], fields[5]);
      assert ["", h.algorithm, h.version, h.params, h.salt, h.digest] == fields;
      Some(h)
    else
      None
  }

  /** Formatting then parsing is the identity: the stored string describes the hash completely. */
  lemma ParseFormat(h: PasswordHash)
    ensures Parse(Format(h)) == Some(h)
  {
    var fields: seq<Field> := ["", h.algorithm, h.version, h.params, h.salt, h.digest];
    SplitJoin(fields);
  }

  /** Two hashes with the same string are the same hash. */
  lemma FormatInjective(h1: PasswordHash, h2: PasswordHash)
    requires Format(h1) == Format(h2)
    ensures h1 == h2
  {
    ParseFormat(h1);
    ParseFormat(h2);
  }
}
