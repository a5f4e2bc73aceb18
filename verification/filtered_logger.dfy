/** PII redaction for log lines: `filter_datum` and `RedactingFormatter`.
    Each field is applied as `re.sub(field + "=.*?" + separator, field + "="
    + redaction + separator, message)`. Field names and the separator are
    taken literally, as they are when they hold no regular-expression
    metacharacters. */
module FilteredLogger {
  import opened Values

  const PII_FIELDS: seq<string> := ["name", "email", "phone", "ssn", "password"]
  const REDACTION: string := "***"
  const SEPARATOR: string := ";"

  /** `pat` occurs in `s` at index `k`. */
  predicate OccursAt(s: string, pat: string, k: int) {
    0 <= k && k + |pat| <= |s| && s[k..k + |pat|] == pat
  }

  lemma OccursAfterDrop(s: string, pat: string, d: nat, k: nat)
    requires d <= |s|
    ensures OccursAt(s[d..], pat, k) <==> OccursAt(s, pat, d + k)
  {
    if 0 <= k && k + |pat| <= |s| - d {
      assert s[d..][k..k + |pat|] == s[d + k..d + k + |pat|];
    }
  }

  /** The first index at which `pat` occurs in `s`. */
  function FindFirst(s: string, pat: string): (r: Option<nat>)
    ensures r.None? <==> forall k :: !OccursAt(s, pat, k)
    ensures r.Some? ==> OccursAt(s, pat, r.value)
    ensures r.Some? ==> forall k :: 0 <= k < r.value ==> !OccursAt(s, pat, k)
    decreases |s|
  {
    if StartsWith(s, pat) then
      assert OccursAt(s, pat, 0);
      Some(0)
    else if s == [] then
      assert forall k :: !OccursAt(s, pat, k);
      None
    else
      var rest := FindFirst(s[1..], pat);
      assert forall k: nat :: OccursAt(s[1..], pat, k) <==> OccursAt(s, pat, 1 + k) by {
        forall k: nat {
          OccursAfterDrop(s, pat, 1, k);
        }
      }
      assert !OccursAt(s, pat, 0);
      match rest
      case None =>
        assert forall k :: !OccursAt(s, pat, k) by {
          forall k | 1 <= k ensures !OccursAt(s, pat, k) {
            OccursAfterDrop(s, pat, 1, k - 1);
          }
        }
        None
      case Some(k) =>
        assert forall j :: 0 <= j < k + 1 ==> !OccursAt(s, pat, j) by {
          forall j | 0 < j < k + 1 ensures !OccursAt(s, pat, j) {
            OccursAfterDrop(s, pat, 1, j - 1);
          }
        }
        Some(k + 1)
  }

  /** `t` starts with `field=`, then a newline-free value of length `k`, then
      the separator: the pattern `field=.*?sep` matches at the start of `t`
      with a value of that length. */
  predicate MatchesWith(field: string, sep: string, t: string, k: int) {
    var h := |field| + 1;
    StartsWith(t, field + "=") && 0 <= k && OccursAt(t, sep, h + k) && '\n' !in t[h..h + k]
  }

  lemma NewlineStaysInside(t: string, h: nat, k: nat, k': nat)
    requires h + k <= h + k' <= |t|
    requires '\n' in t[h..h + k]
    ensures '\n' in t[h..h + k']
  {
    var j :| 0 <= j < k && t[h..h + k][j] == '\n';
    assert t[h..h + k'][j] == '\n';
  }

  /** With no separator after `field=`, nothing matches. */
  lemma NoSeparatorNoMatch(field: string, sep: string, t: string)
    requires StartsWith(t, field + "=")
    requires FindFirst(t[|field| + 1..], sep).None?
    ensures forall k :: !MatchesWith(field, sep, t, k)
  {
    var h := |field| + 1;
    forall k | 0 <= k ensures !MatchesWith(field, sep, t, k) {
      OccursAfterDrop(t, sep, h, k);
    }
  }

  /** With a newline before the first separator after `field=`, nothing
      matches: every later separator has the newline before it too. */
  lemma NewlineBeforeSeparatorNoMatch(field: string, sep: string, t: string, k: nat)
    requires StartsWith(t, field + "=")
    requires FindFirst(t[|field| + 1..], sep) == Some(k)
    requires '\n' in t[|field| + 1..|field| + 1 + k]
    ensures forall k' :: !MatchesWith(field, sep, t, k')
  {
    var h := |field| + 1;
    forall k' | 0 <= k' ensures !MatchesWith(field, sep, t, k') {
      OccursAfterDrop(t, sep, h, k');
      if k <= k' && h + k' <= |t| {
        NewlineStaysInside(t, h, k, k');
      }
    }
  }

  /** With a newline-free value up to the first separator, that value is
      the shortest match. */
  lemma FirstSeparatorMatches(field: string, sep: string, t: string, k: nat)
    requires StartsWith(t, field + "=")
    requires FindFirst(t[|field| + 1..], sep) == Some(k)
    requires '\n' !in t[|field| + 1..|field| + 1 + k]
    ensures MatchesWith(field, sep, t, k)
    ensures forall k' :: 0 <= k' < k ==> !MatchesWith(field, sep, t, k')
  {
    var h := |field| + 1;
    OccursAfterDrop(t, sep, h, k);
    forall k' | 0 <= k' < k ensures !MatchesWith(field, sep, t, k') {
      OccursAfterDrop(t, sep, h, k');
    }
  }

  /** The length of the value that the lazy `.*?` takes when the pattern
      matches at the start of `t`: the shortest one, which ends at the first
      separator, provided no newline comes before it. */
  function MatchValue(field: string, sep: string, t: string): (r: Option<nat>)
    ensures r.None? <==> forall k :: !MatchesWith(field, sep, t, k)
    ensures r.Some? ==> MatchesWith(field, sep, t, r.value)
    ensures r.Some? ==> forall k :: 0 <= k < r.value ==> !MatchesWith(field, sep, t, k)
  {
    var h := |field| + 1;
    if !StartsWith(t, field + "=") then
      None
    else
      match FindFirst(t[h..], sep)
      case None =>
        NoSeparatorNoMatch(field, sep, t);
        None
      case Some(k) =>
        if '\n' in t[h..h + k] then
          NewlineBeforeSeparatorNoMatch(field, sep, t, k);
          None
        else
          FirstSeparatorMatches(field, sep, t, k);
          Some(k)
  }

  /** No position of `t` starts a match for `field`, read from the left. */
  predicate NoMatchIn(field: string, sep: string, t: string)
    decreases |t|
  {
    MatchValue(field, sep, t).None? && (t == [] || NoMatchIn(field, sep, t[1..]))
  }

  /** The same, position by position: no suffix of `t` starts a match. */
  lemma {:induction false} NoMatchInAt(field: string, sep: string, t: string)
    ensures NoMatchIn(field, sep, t) <==> forall i :: 0 <= i <= |t| ==> MatchValue(field, sep, t[i..]).None?
    decreases |t|
  {
    assert t[0..] == t;
    if t != [] {
      NoMatchInAt(field, sep, t[1..]);
      assert forall i :: 1 <= i <= |t| ==> t[i..] == t[1..][i - 1..];
    }
  }

  /** One `re.sub` pass for one field: matches are taken left to right and
      do not overlap; each becomes `field=` + redaction + separator, and
      every character outside a match is copied. A pass leaves the text
      alone when no `field=` is followed by the separator on the same line. */
  function Substitute(field: string, redaction: string, sep: string, t: string): (r: string)
    ensures NoMatchIn(field, sep, t) ==> r == t
    decreases |t|
  {
    if t == [] then []
    else
      match MatchValue(field, sep, t)
      case Some(k) =>
        field + "=" + redaction + sep + Substitute(field, redaction, sep, t[|field| + 1 + k + |sep|..])
      case None =>
        assert [t[0]] + t[1..] == t;
        [t[0]] + Substitute(field, redaction, sep, t[1..])
  }

  /** The passes of `filter_datum`, one per field in list order, each on the
      output of the one before. With no field matching anywhere, or no
      fields at all, the message comes back unchanged. */
  function Filtered(fields: seq<string>, redaction: string, message: string, sep: string): (r: string)
    ensures (forall f :: f in fields ==> NoMatchIn(f, sep, message)) ==> r == message
  {
    if fields == [] then message
    else
      assert forall f :: f in fields[1..] ==> f in fields;
      Filtered(fields[1..], redaction, Substitute(fields[0], redaction, sep, message), sep)
  }

  /** `filter_datum`: the loop that rebinds `message` once per field. */
  method FilterDatum(fields: seq<string>, redaction: string, message: string, separator: string)
    returns (result: string)
    ensures result == Filtered(fields, redaction, message, separator)
  {
    result := message;
    for i := 0 to |fields|
      invariant Filtered(fields[i..], redaction, result, separator) == Filtered(fields, redaction, message, separator)
    {
      assert fields[i..][1..] == fields[i + 1..];
      result := Substitute(fields[i], redaction, separator, result);
    }
    assert fields[|fields|..] == [];
  }

  /** Without the separator in the text nothing is redacted: a `field=` left
      open to the end of the text stays as it is. */
  lemma NoSeparatorNoChange(field: string, redaction: string, sep: string, t: string)
    requires forall k :: !OccursAt(t, sep, k)
    ensures Substitute(field, redaction, sep, t) == t
  {
    forall i | 0 <= i <= |t| ensures MatchValue(field, sep, t[i..]).None? {
      forall k | 0 <= k ensures !MatchesWith(field, sep, t[i..], k) {
        OccursAfterDrop(t, sep, i, |field| + 1 + k);
      }
    }
    NoMatchInAt(field, sep, t);
  }

  /** A `field=` whose value runs into a newline before any separator does
      not match there. */
  lemma UnterminatedValueNotMatched(field: string, sep: string, v: string, w: string)
    requires '\n' !in v
    requires forall k :: 0 <= k <= |v| ==> !OccursAt(v + "\n" + w, sep, k)
    ensures MatchValue(field, sep, field + "=" + v + "\n" + w).None?
  {
    var t := field + "=" + v + "\n" + w;
    var h := |field| + 1;
    assert StartsWith(t, field + "=");
    assert t[h..] == v + "\n" + w;
    forall k | 0 <= k ensures !MatchesWith(field, sep, t, k) {
      OccursAfterDrop(t, sep, h, k);
      if k > |v| && h + k <= |t| {
        assert t[h..h + k][|v|] == t[h + |v|] == '\n';
      }
    }
  }

  /** A match at the start of the text: `field=value<sep>`, with the first
      separator right after a newline-free value, becomes
      `field=<redaction><sep>`, and the scan resumes after it. */
  lemma SubstituteMatchAtStart(field: string, redaction: string, sep: string, v: string, rest: string)
    requires '\n' !in v
    requires forall k :: 0 <= k < |v| ==> !OccursAt(v + sep + rest, sep, k)
    ensures Substitute(field, redaction, sep, field + "=" + v + sep + rest)
         == field + "=" + redaction + sep + Substitute(field, redaction, sep, rest)
  {
    var t := field + "=" + v + sep + rest;
    var h := |field| + 1;
    assert StartsWith(t, field + "=");
    assert t[h..] == v + sep + rest;
    assert t[h..h + |v|] == v;
    OccursAfterDrop(t, sep, h, |v|);
    assert MatchesWith(field, sep, t, |v|);
    forall k | 0 <= k < |v| ensures !MatchesWith(field, sep, t, k) {
      OccursAfterDrop(t, sep, h, k);
    }
    assert MatchValue(field, sep, t) == Some(|v|);
    assert t[h + |v| + |sep|..] == rest;
  }

  lemma SubstituteStep(field: string, redaction: string, sep: string, c: char, rest: string)
    requires MatchValue(field, sep, [c] + rest).None?
    ensures Substitute(field, redaction, sep, [c] + rest) == [c] + Substitute(field, redaction, sep, rest)
  {
    assert ([c] + rest)[1..] == rest;
  }

  lemma PrefixTailNoMatch(field: string, sep: string, p: string, rest: string)
    requires p != []
    requires forall i :: 0 <= i < |p| ==> MatchValue(field, sep, (p + rest)[i..]).None?
    ensures p + rest == [p[0]] + (p[1..] + rest)
    ensures MatchValue(field, sep, [p[0]] + (p[1..] + rest)).None?
    ensures forall i :: 0 <= i < |p[1..]| ==> MatchValue(field, sep, (p[1..] + rest)[i..]).None?
  {
    var tail := p[1..] + rest;
    assert p + rest == [p[0]] + tail;
    assert (p + rest)[0..] == p + rest;
    forall i | 0 <= i < |p[1..]| ensures MatchValue(field, sep, tail[i..]).None? {
      assert tail[i..] == (p + rest)[i + 1..];
    }
  }

  /** Characters at which no match starts are copied through unchanged. */
  lemma {:induction false} SubstituteCopiesPrefix(field: string, redaction: string, sep: string, p: string, rest: string)
    requires forall i :: 0 <= i < |p| ==> MatchValue(field, sep, (p + rest)[i..]).None?
    ensures Substitute(field, redaction, sep, p + rest) == p + Substitute(field, redaction, sep, rest)
  {
    if p != [] {
      var tail := p[1..] + rest;
      PrefixTailNoMatch(field, sep, p, rest);
      calc {
        Substitute(field, redaction, sep, p + rest);
        { SubstituteStep(field, redaction, sep, p[0], tail); }
        [p[0]] + Substitute(field, redaction, sep, tail);
        { SubstituteCopiesPrefix(field, redaction, sep, p[1..], rest); }
        [p[0]] + (p[1..] + Substitute(field, redaction, sep, rest));
        { assert [p[0]] + p[1..] == p; }
        p + Substitute(field, redaction, sep, rest);
      }
    } else {
      assert p + rest == rest;
    }
  }

  /** Applying the list `f1 + f2` is applying `f1`, then `f2` to its output. */
  lemma {:induction false} FilteredAppend(f1: seq<string>, f2: seq<string>, redaction: string, message: string, sep: string)
    ensures Filtered(f1 + f2, redaction, message, sep)
         == Filtered(f2, redaction, Filtered(f1, redaction, message, sep), sep)
  {
    if f1 == [] {
      assert f1 + f2 == f2;
    } else {
      assert (f1 + f2)[1..] == f1[1..] + f2;
      FilteredAppend(f1[1..], f2, redaction, Substitute(f1[0], redaction, sep, message), sep);
    }
  }

  /** `suffix` ends `s`. */
  predicate EndsWith(s: string, suffix: string) {
    |suffix| <= |s| && s[|s| - |suffix|..] == suffix
  }

  /** No match starts at index `i` of `t` when `t` differs from `field=` at
      offset `j` there. */
  lemma NoMatchAt(field: string, sep: string, t: string, i: nat, j: nat)
    requires i <= |t| && j <= |field|
    requires i + j < |t| ==> t[i + j] != (field + "=")[j]
    ensures MatchValue(field, sep, t[i..]).None?
  {
    if |field| + 1 <= |t| - i {
      assert t[i..][..|field| + 1][j] == t[i + j];
    }
  }

  /** The text of a log line made of `key=value<c>` pairs. */
  function Pairs(kvs: seq<(string, string)>, c: char): string {
    if kvs == [] then [] else kvs[0].0 + "=" + kvs[0].1 + [c] + Pairs(kvs[1..], c)
  }

  /** Keys and values of a well-formed pair line: no `=` or separator in a
      key, no `=`, separator or newline in a value. */
  predicate WellFormedPairs(kvs: seq<(string, string)>, c: char) {
    forall j :: 0 <= j < |kvs| ==>
      '=' !in kvs[j].0 && c !in kvs[j].0 && '=' !in kvs[j].1 && c !in kvs[j].1 && '\n' !in kvs[j].1
  }

  /** The pairs with the value of every key that ends in `field` replaced. */
  function MaskPairs(field: string, redaction: string, kvs: seq<(string, string)>): (r: seq<(string, string)>)
    ensures |r| == |kvs|
    ensures forall j :: 0 <= j < |kvs| ==> r[j].0 == kvs[j].0
    ensures forall j :: 0 <= j < |kvs| ==> r[j].1 == if EndsWith(kvs[j].0, field) then redaction else kvs[j].1
  {
    if kvs == [] then []
    else [(kvs[0].0, if EndsWith(kvs[0].0, field) then redaction else kvs[0].1)] + MaskPairs(field, redaction, kvs[1..])
  }

  /** No match starts inside a pair whose key does not end in `field`, nor
      at its value or separator. */
  lemma NoMatchInPair(field: string, sep: string, c: char, k: string, v: string, rest: string, i: nat)
    requires sep == [c] && c != '=' && '=' !in field && c !in field
    requires '=' !in k && '=' !in v
    requires !EndsWith(k, field)
    requires i < |k| + |v| + 2
    ensures MatchValue(field, sep, (k + "=" + v + [c] + rest)[i..]).None?
  {
    var t := k + "=" + v + [c] + rest;
    var n := |k| + |v| + 2;
    if i + |field| < |k| {
      NoMatchAt(field, sep, t, i, |field|);
    } else if i + |field| == |k| {
      assert t[i..][..|field|] == k[|k| - |field|..];
      assert !StartsWith(t[i..], field + "=") by {
        if |field| + 1 <= |t[i..]| {
          assert t[i..][..|field| + 1][..|field|] == t[i..][..|field|];
        }
      }
    } else if i <= |k| {
      assert (field + "=")[|k| - i] == field[|k| - i];
      NoMatchAt(field, sep, t, i, |k| - i);
    } else if i + |field| < n - 1 {
      assert t[i + |field|] == v[i + |field| - |k| - 1];
      NoMatchAt(field, sep, t, i, |field|);
    } else {
      assert t[n - 1] == c;
      NoMatchAt(field, sep, t, i, n - 1 - i);
    }
  }

  /** No match starts in the part of a key before the field it ends in. */
  lemma KeyPrefixNoMatch(field: string, sep: string, p: string, t: string)
    requires '=' !in p + field && StartsWith(t, field)
    ensures forall i :: 0 <= i < |p| ==> MatchValue(field, sep, (p + t)[i..]).None?
  {
    forall i | 0 <= i < |p| ensures MatchValue(field, sep, (p + t)[i..]).None? {
      if i + |field| < |p| {
        assert (p + t)[i + |field|] == (p + field)[i + |field|];
      } else {
        assert (p + t)[i + |field|] == t[i + |field| - |p|] == (p + field)[i + |field|];
      }
      NoMatchAt(field, sep, p + t, i, |field|);
    }
  }

  lemma ValueHasNoSeparator(v: string, c: char, rest: string)
    requires c !in v
    ensures forall j :: 0 <= j < |v| ==> !OccursAt(v + [c] + rest, [c], j)
  {
    forall j | 0 <= j < |v| ensures !OccursAt(v + [c] + rest, [c], j) {
      assert (v + [c] + rest)[j..j + 1] == [v[j]];
    }
  }

  /** A pair whose key ends in the field: its value is redacted. */
  lemma SubstituteMaskedPair(field: string, redaction: string, c: char, k: string, v: string, rest: string)
    requires '=' !in k && c !in v && '\n' !in v
    requires EndsWith(k, field)
    ensures Substitute(field, redaction, [c], k + "=" + v + [c] + rest)
         == k + "=" + redaction + [c] + Substitute(field, redaction, [c], rest)
  {
    var p := k[..|k| - |field|];
    var t := field + "=" + v + [c] + rest;
    assert k == p + field;
    KeyPrefixNoMatch(field, [c], p, t);
    ValueHasNoSeparator(v, c, rest);
    var tail := Substitute(field, redaction, [c], rest);
    calc {
      Substitute(field, redaction, [c], k + "=" + v + [c] + rest);
      { Regroup(p, field, v, c, rest); }
      Substitute(field, redaction, [c], p + t);
      { SubstituteCopiesPrefix(field, redaction, [c], p, t); }
      p + Substitute(field, redaction, [c], t);
      { SubstituteMatchAtStart(field, redaction, [c], v, rest); }
      p + (field + "=" + redaction + [c] + tail);
      { Regroup(p, field, redaction, c, tail); }
      k + "=" + redaction + [c] + tail;
    }
  }

  lemma Regroup(p: string, field: string, x: string, c: char, rest: string)
    ensures (p + field) + "=" + x + [c] + rest == p + (field + "=" + x + [c] + rest)
  {
  }

  /** A pair whose key does not end in the field is copied. */
  lemma SubstituteKeptPair(field: string, redaction: string, c: char, k: string, v: string, rest: string)
    requires c != '=' && '=' !in field && c !in field
    requires '=' !in k && '=' !in v
    requires !EndsWith(k, field)
    ensures Substitute(field, redaction, [c], k + "=" + v + [c] + rest)
         == k + "=" + v + [c] + Substitute(field, redaction, [c], rest)
  {
    var p := k + "=" + v + [c];
    forall i | 0 <= i < |p| ensures MatchValue(field, [c], (p + rest)[i..]).None? {
      NoMatchInPair(field, [c], c, k, v, rest, i);
    }
    SubstituteCopiesPrefix(field, redaction, [c], p, rest);
  }

  /** One pass over a well-formed pair line redacts exactly the values whose
      key ends in the field name (so `username=` is caught by `name`), and
      keeps every key, every other value and every separator. */
  lemma {:induction false} SubstitutePairs(field: string, redaction: string, c: char, kvs: seq<(string, string)>)
    requires c != '=' && '=' !in field && c !in field
    requires WellFormedPairs(kvs, c)
    ensures Substitute(field, redaction, [c], Pairs(kvs, c)) == Pairs(MaskPairs(field, redaction, kvs), c)
  {
    if kvs != [] {
      var k, v := kvs[0].0, kvs[0].1;
      var rest := Pairs(kvs[1..], c);
      assert WellFormedPairs(kvs[1..], c) by {
        forall j | 0 <= j < |kvs[1..]| ensures kvs[1..][j] == kvs[j + 1] { }
      }
      SubstitutePairs(field, redaction, c, kvs[1..]);
      var m := MaskPairs(field, redaction, kvs);
      assert m[1..] == MaskPairs(field, redaction, kvs[1..]);
      if EndsWith(k, field) {
        SubstituteMaskedPair(field, redaction, c, k, v, rest);
      } else {
        SubstituteKeptPair(field, redaction, c, k, v, rest);
      }
    }
  }

  /** The pairs after masking for every field in turn: a value is replaced
      exactly when its key ends in one of the fields. */
  function MaskAll(fields: seq<string>, redaction: string, kvs: seq<(string, string)>): (r: seq<(string, string)>)
    ensures |r| == |kvs|
    ensures forall j :: 0 <= j < |kvs| ==> r[j].0 == kvs[j].0
    ensures forall j :: 0 <= j < |kvs| ==>
      r[j].1 == if exists f :: f in fields && EndsWith(kvs[j].0, f) then redaction else kvs[j].1
  {
    if fields == [] then kvs
    else
      var once := MaskPairs(fields[0], redaction, kvs);
      var r := MaskAll(fields[1..], redaction, once);
      assert forall j :: 0 <= j < |kvs| ==>
        r[j].1 == if exists f :: f in fields && EndsWith(kvs[j].0, f) then redaction else kvs[j].1 by {
        forall j | 0 <= j < |kvs|
          ensures r[j].1 == if exists f :: f in fields && EndsWith(kvs[j].0, f) then redaction else kvs[j].1
        {
          if exists f :: f in fields[1..] && EndsWith(kvs[j].0, f) {
            var f :| f in fields[1..] && EndsWith(kvs[j].0, f);
            assert f in fields;
          } else if EndsWith(kvs[j].0, fields[0]) {
            assert fields[0] in fields;
          } else {
            forall f | f in fields ensures !EndsWith(kvs[j].0, f) {
              if f != fields[0] {
                assert f in fields[1..];
              }
            }
          }
        }
      }
      r
  }

  /** `filter_datum` on a well-formed pair line: the values of the keys that
      end in one of the fields become the redaction, and nothing else of the
      line changes. */
  lemma {:induction false} FilteredPairs(fields: seq<string>, redaction: string, c: char, kvs: seq<(string, string)>)
    requires c != '='
    requires forall f :: f in fields ==> '=' !in f && c !in f
    requires '=' !in redaction && c !in redaction && '\n' !in redaction
    requires WellFormedPairs(kvs, c)
    ensures Filtered(fields, redaction, Pairs(kvs, c), [c]) == Pairs(MaskAll(fields, redaction, kvs), c)
  {
    if fields != [] {
      assert fields[0] in fields;
      SubstitutePairs(fields[0], redaction, c, kvs);
      var once := MaskPairs(fields[0], redaction, kvs);
      assert forall f :: f in fields[1..] ==> f in fields;
      FilteredPairs(fields[1..], redaction, c, once);
    }
  }

  /** On a well-formed pair line, filtering a second time changes nothing. */
  lemma FilteredPairsIdempotent(fields: seq<string>, redaction: string, c: char, kvs: seq<(string, string)>)
    requires c != '='
    requires forall f :: f in fields ==> '=' !in f && c !in f
    requires '=' !in redaction && c !in redaction && '\n' !in redaction
    requires WellFormedPairs(kvs, c)
    ensures var once := Filtered(fields, redaction, Pairs(kvs, c), [c]);
      Filtered(fields, redaction, once, [c]) == once
  {
    var m := MaskAll(fields, redaction, kvs);
    FilteredPairs(fields, redaction, c, kvs);
    FilteredPairs(fields, redaction, c, m);
    assert MaskAll(fields, redaction, m) == m;
  }

  /** A pass leaves alone a prefix that holds no `=` and ends in a space,
      when the field name has no space: no match can start inside it. */
  lemma SubstituteKeepsHeader(field: string, redaction: string, sep: string, h: string, m: string)
    requires h != [] && h[|h| - 1] == ' ' && '=' !in h && ' ' !in field
    ensures Substitute(field, redaction, sep, h + m) == h + Substitute(field, redaction, sep, m)
  {
    forall i | 0 <= i < |h| ensures MatchValue(field, sep, (h + m)[i..]).None? {
      if i + |field| < |h| {
        assert (h + m)[i + |field|] == h[i + |field|];
        NoMatchAt(field, sep, h + m, i, |field|);
      } else {
        var j := |h| - 1 - i;
        assert (h + m)[i + j] == ' ' && (field + "=")[j] == field[j];
        NoMatchAt(field, sep, h + m, i, j);
      }
    }
    SubstituteCopiesPrefix(field, redaction, sep, h, m);
  }

  lemma {:induction false} FilteredKeepsHeader(fields: seq<string>, redaction: string, sep: string, h: string, m: string)
    requires h != [] && h[|h| - 1] == ' ' && '=' !in h
    requires forall f :: f in fields ==> ' ' !in f
    ensures Filtered(fields, redaction, h + m, sep) == h + Filtered(fields, redaction, m, sep)
  {
    if fields != [] {
      assert fields[0] in fields;
      SubstituteKeepsHeader(fields[0], redaction, sep, h, m);
      assert forall f :: f in fields[1..] ==> f in fields;
      FilteredKeepsHeader(fields[1..], redaction, sep, h, Substitute(fields[0], redaction, sep, m));
    }
  }

  /** The attributes of a `logging.LogRecord` that the format string uses;
      `asctime` is the already formatted time. */
  datatype LogRecord = LogRecord(name: string, levelname: string, asctime: string, message: string)

  /** `%-15s`: left-justified in a field of 15 characters. */
  function PadRight(s: string, width: nat): (r: string)
    ensures |r| == if |s| < width then width else |s|
    ensures StartsWith(r, s)
    ensures forall i :: |s| <= i < |r| ==> r[i] == ' '
  {
    if width <= |s| then s else s + seq(width - |s|, _ => ' ')
  }

  /** Everything the format string
      `"[HOLBERTON] %(name)s %(levelname)s %(asctime)-15s: %(message)s"`
      puts before the message: the tag, then name and level each followed by
      a space, then the time in a column of at least 15, then `": "`. */
  function Header(record: LogRecord): (h: string)
    ensures StartsWith(h, "[HOLBERTON] ")
    ensures |h| == 16 + |record.name| + |record.levelname| + (if |record.asctime| < 15 then 15 else |record.asctime|)
    ensures h[|h| - 2..] == ": "
  {
    "[HOLBERTON] " + record.name + " " + record.levelname + " " + PadRight(record.asctime, 15) + ": "
  }

  /** The header holds no `=` when the name, level and time hold none. */
  predicate PlainHeader(record: LogRecord) {
    '=' !in record.name && '=' !in record.levelname && '=' !in record.asctime
  }

  lemma HeaderShape(record: LogRecord)
    requires PlainHeader(record)
    ensures Header(record) != [] && Header(record)[|Header(record)| - 1] == ' '
    ensures '=' !in Header(record)
  {
    var h := Header(record);
    var pad := PadRight(record.asctime, 15);
    assert '=' !in pad by {
      forall i | 0 <= i < |pad| ensures pad[i] != '=' {
        if i < |record.asctime| {
          assert pad[i] == pad[..|record.asctime|][i] == record.asctime[i];
        }
      }
    }
    assert forall x :: x in h ==> x in "[HOLBERTON] " || x in record.name || x in record.levelname || x in pad || x in " : ";
  }

  /** `RedactingFormatter`: the field list is fixed when it is built. */
  class RedactingFormatter {
    const fields: seq<string>

    constructor (fields: seq<string>)
      ensures this.fields == fields
    {
      this.fields := fields;
    }

    /** `format`: the rendered record passed through `filter_datum` with
        "***" and ";". Only the message can change: the header before it is
        kept as rendered when the fields have no spaces. */
    function Format(record: LogRecord): (s: string)
      ensures (forall f :: f in fields ==> ' ' !in f) && PlainHeader(record) ==>
        s == Header(record) + Filtered(fields, REDACTION, record.message, SEPARATOR)
    {
      assert (forall f :: f in fields ==> ' ' !in f) && PlainHeader(record) ==>
        Filtered(fields, REDACTION, Header(record) + record.message, SEPARATOR)
          == Header(record) + Filtered(fields, REDACTION, record.message, SEPARATOR) by {
        if (forall f :: f in fields ==> ' ' !in f) && PlainHeader(record) {
          HeaderShape(record);
          FilteredKeepsHeader(fields, REDACTION, SEPARATOR, Header(record), record.message);
        }
      }
      Filtered(fields, REDACTION, Header(record) + record.message, SEPARATOR)
    }
  }

  lemma PairsCons(k: string, v: string, c: char, rest: seq<(string, string)>)
    ensures Pairs([(k, v)] + rest, c) == k + "=" + v + [c] + Pairs(rest, c)
  {
    assert ([(k, v)] + rest)[1..] == rest;
  }

  /** The text of a three-pair line. */
  lemma ThreePairs(k1: string, v1: string, k2: string, v2: string, k3: string, v3: string, c: char)
    ensures Pairs([(k1, v1), (k2, v2), (k3, v3)], c)
         == (k1 + "=" + v1 + [c]) + (k2 + "=" + v2 + [c]) + (k3 + "=" + v3 + [c])
  {
    PairsCons(k3, v3, c, []);
    PairsCons(k2, v2, c, [(k3, v3)]);
    PairsCons(k1, v1, c, [(k2, v2), (k3, v3)]);
    assert [(k1, v1), (k2, v2), (k3, v3)] == [(k1, v1)] + [(k2, v2), (k3, v3)];
    assert [(k2, v2), (k3, v3)] == [(k2, v2)] + [(k3, v3)];
    assert [(k3, v3)] == [(k3, v3)] + [];
  }

  lemma PiiLineText()
    ensures Pairs([("name", "John Smith"), ("email", "john@x.com"), ("phone", "555")], ';') == "name=John Smith;" + "email=john@x.com;" + "phone=555;"
  {
    ThreePairs("name", "John Smith", "email", "john@x.com", "phone", "555", ';');
    PiiPairTexts();
  }

  lemma PiiPairTexts()
    ensures "name" + "=" + "John Smith" + [';'] == "name=John Smith;"
    ensures "email" + "=" + "john@x.com" + [';'] == "email=john@x.com;"
    ensures "phone" + "=" + "555" + [';'] == "phone=555;"
    ensures "name" + "=" + "***" + [';'] == "name=***;"
    ensures "email" + "=" + "***" + [';'] == "email=***;"
    ensures "phone" + "=" + "***" + [';'] == "phone=***;"
  {
  }

  /** Every key of the line ends in a PII field (itself). */
  lemma PiiLineMask()
    ensures MaskAll(PII_FIELDS, REDACTION, [("name", "John Smith"), ("email", "john@x.com"), ("phone", "555")]) == [("name", "***"), ("email", "***"), ("phone", "***")]
  {
  }

  lemma PiiLineWellFormed()
    ensures WellFormedPairs([("name", "John Smith"), ("email", "john@x.com"), ("phone", "555")], ';')
    ensures forall f :: f in PII_FIELDS ==> '=' !in f && ';' !in f && ' ' !in f
    ensures '=' !in REDACTION && ';' !in REDACTION && '\n' !in REDACTION
    ensures SEPARATOR == [';']
  {
  }

  lemma PiiLineMasked()
    ensures Pairs(MaskAll(PII_FIELDS, REDACTION, [("name", "John Smith"), ("email", "john@x.com"), ("phone", "555")]), ';') == "name=***;" + "email=***;" + "phone=***;"
  {
    PiiLineMask();
    ThreePairs("name", "***", "email", "***", "phone", "***", ';');
    PiiPairTexts();
  }

  /** With the PII fields and ";", every value of
      `name=John Smith;email=john@x.com;phone=555;` is redacted. */
  lemma PiiFieldsRedactLine()
    ensures Filtered(PII_FIELDS, REDACTION, "name=John Smith;" + "email=john@x.com;" + "phone=555;", SEPARATOR)
         == "name=***;" + "email=***;" + "phone=***;"
  {
    PiiLineWellFormed();
    calc {
      Filtered(PII_FIELDS, REDACTION, "name=John Smith;" + "email=john@x.com;" + "phone=555;", SEPARATOR);
      { PiiLineText(); }
      Filtered(PII_FIELDS, REDACTION, Pairs([("name", "John Smith"), ("email", "john@x.com"), ("phone", "555")], ';'), [';']);
      { FilteredPairs(PII_FIELDS, REDACTION, ';', [("name", "John Smith"), ("email", "john@x.com"), ("phone", "555")]); }
      Pairs(MaskAll(PII_FIELDS, REDACTION, [("name", "John Smith"), ("email", "john@x.com"), ("phone", "555")]), ';');
      { PiiLineMasked(); }
      "name=***;" + "email=***;" + "phone=***;";
    }
  }

  lemma UsernameLineText(v: string)
    ensures Pairs([("username", v)], ';') == "username=" + v + ";"
  {
    PairsCons("username", v, ';', []);
    assert [("username", v)] == [("username", v)] + [];
  }

  /** Matching is by substring: the field `name` also redacts `username`. */
  lemma NameRedactsUsername()
    ensures Filtered(["name"], REDACTION, "username=bob;", SEPARATOR) == "username=***;"
  {
    var kvs := [("username", "bob")];
    UsernameLineText("bob");
    UsernameLineText(REDACTION);
    assert "username=" + "bob" + ";" == "username=bob;";
    assert "username=" + REDACTION + ";" == "username=***;";
    assert SEPARATOR == [';'];
    FilteredPairs(["name"], REDACTION, ';', kvs);
    assert EndsWith("username", "name");
    assert MaskAll(["name"], REDACTION, kvs) == [("username", "***")];
  }

  /** The formatter built with the PII fields redacts a pair-line message
      and keeps the header. */
  lemma PiiFormatterRedactsMessage(formatter: RedactingFormatter, record: LogRecord)
    requires formatter.fields == PII_FIELDS
    requires PlainHeader(record)
    requires record.message == "name=John Smith;" + "email=john@x.com;" + "phone=555;"
    ensures formatter.Format(record) == Header(record) + ("name=***;" + "email=***;" + "phone=***;")
  {
    PiiLineWellFormed();
    PiiFieldsRedactLine();
  }
}
