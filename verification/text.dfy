/** JavaScript value helpers shared by both RSVP backends: optional values,
    the truthiness of an optional string, the `x || d` default idiom, and
    `String.prototype.trim` over the ECMAScript white-space set. */
module Text {

  /** An optional value: `None` stands for `undefined` or NaN. */
  datatype Option<+T> = None | Some(value: T)

  /** In JavaScript an absent (`undefined`) or empty string is falsy. */
  predicate Truthy(o: Option<string>) {
    o.Some? && o.value != ""
  }

  /** `o || d` for an optional string: falls back to `d` when `o` is falsy. */
  function Or(o: Option<string>, d: string): (s: string)
    ensures Truthy(o) ==> s == o.value
    ensures !Truthy(o) ==> s == d
  {
    match o
    case Some(v) => if v == "" then d else v
    case None => d
  }

  /** `(o || "")`: the empty string when the field is absent. */
  function OrEmpty(o: Option<string>): (s: string)
    ensures o.Some? ==> s == o.value
    ensures o.None? ==> s == ""
  {
    Or(o, "")
  }

  /** `n || 1` applied to the result of `parseInt`: NaN (None) and 0 are
      falsy and give 1; any other parsed number is kept as it is. */
  function OrOne(parsed: Option<int>): (n: int)
    ensures n != 0
    ensures parsed.Some? && parsed.value != 0 ==> n == parsed.value
    ensures parsed.None? || parsed.value == 0 ==> n == 1
  {
    match parsed
    case None => 1
    case Some(v) => if v == 0 then 1 else v
  }

  /** The characters `trim` removes: ECMAScript WhiteSpace (tab, vertical
      tab, form feed, space, no-break space, byte order mark and the Unicode
      space separators) and LineTerminator (line feed, carriage return,
      line and paragraph separators). */
  predicate IsSpace(c: char) {
    var n := c as int;
    || (0x09 <= n <= 0x0D)
    || n == 0x20
    || n == 0xA0
    || n == 0x1680
    || (0x2000 <= n <= 0x200A)
    || n == 0x2028
    || n == 0x2029
    || n == 0x202F
    || n == 0x205F
    || n == 0x3000
    || n == 0xFEFF
  }

  predicate AllSpace(s: string) {
    forall i :: 0 <= i < |s| ==> IsSpace(s[i])
  }

  /** A string with no white space at either end: what `trim` produces. */
  predicate Trimmed(t: string) {
    t == "" || (!IsSpace(t[0]) && !IsSpace(t[|t| - 1]))
  }

  /** The number of white-space characters `s` starts with. */
  function LeadingSpace(s: string): (n: nat)
    ensures n <= |s|
    ensures forall i :: 0 <= i < n ==> IsSpace(s[i])
    ensures n < |s| ==> !IsSpace(s[n])
  {
    if |s| > 0 && IsSpace(s[0]) then 1 + LeadingSpace(s[1..]) else 0
  }

  /** The number of white-space characters `s` ends with. */
  function TrailingSpace(s: string): (n: nat)
    ensures n <= |s|
    ensures forall i :: |s| - n <= i < |s| ==> IsSpace(s[i])
    ensures n < |s| ==> !IsSpace(s[|s| - 1 - n])
  {
    if |s| > 0 && IsSpace(s[|s| - 1]) then 1 + TrailingSpace(s[..|s| - 1]) else 0
  }

  /** `String.prototype.trim`: what lies between the leading and the
      trailing white space. */
  function Trim(s: string): (t: string)
    ensures |t| <= |s|
    ensures Trimmed(t)
    ensures t == "" <==> AllSpace(s)
    ensures Trimmed(s) ==> t == s
  {
    var lead := LeadingSpace(s);
    if lead == |s| then ""
    else
      var trail := TrailingSpace(s);
      assert lead < |s| - trail;
      s[lead..|s| - trail]
  }

  /** Trimming keeps exactly what lies between a white-space prefix and a
      white-space suffix of the input. */
  lemma TrimStripsEnds(s: string)
    ensures exists a, b :: s == a + Trim(s) + b && AllSpace(a) && AllSpace(b)
  {
    var t := Trim(s);
    var lead := LeadingSpace(s);
    if lead == |s| {
      assert t == "";
      assert s == s + t + "" && AllSpace(s) && AllSpace("");
    } else {
      var trail := TrailingSpace(s);
      assert t == s[lead..|s| - trail];
      var a, b := s[..lead], s[|s| - trail..];
      assert AllSpace(a) by {
        forall i | 0 <= i < |a| ensures IsSpace(a[i]) {
          assert a[i] == s[i];
        }
      }
      assert AllSpace(b) by {
        forall i | 0 <= i < |b| ensures IsSpace(b[i]) {
          assert b[i] == s[|s| - trail + i];
        }
      }
      assert s == a + t + b;
    }
  }

  /** Trimming twice is trimming once. */
  lemma TrimIdempotent(s: string)
    ensures Trim(Trim(s)) == Trim(s)
  {
  }

  /** A non-empty string made only of white space passes a truthiness
      check but trims to the empty string. */
  lemma BlankIsTruthyButTrimsEmpty(s: string)
    requires s != "" && AllSpace(s)
    ensures Truthy(Some(s)) && Trim(s) == ""
  {
  }
}
