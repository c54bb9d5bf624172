/** C strings: NUL-free character sequences ordered by `strcmp`. */
module CStrings {

  datatype Option<+T> = None | Some(value: T)

  /** The sign convention of `strcmp`: negative, zero or positive. */
  function StrCmp(a: string, b: string): int {
    if a == [] && b == [] then 0
    else if a == [] then -1
    else if b == [] then 1
    else if a[0] != b[0] then a[0] as int - b[0] as int
    else StrCmp(a[1..], b[1..])
  }

  predicate Less(a: string, b: string) {
    StrCmp(a, b) < 0
  }

  lemma {:induction false} StrCmpZero(a: string, b: string)
    ensures StrCmp(a, b) == 0 <==> a == b
  {
    if a != [] && b != [] {
      StrCmpZero(a[1..], b[1..]);
      assert a == [a[0]] + a[1..] && b == [b[0]] + b[1..];
    }
  }

  lemma {:induction false} StrCmpFlip(a: string, b: string)
    ensures StrCmp(a, b) < 0 <==> StrCmp(b, a) > 0
  {
    if a != [] && b != [] {
      StrCmpFlip(a[1..], b[1..]);
    }
  }

  lemma {:induction false} LessTransitive(a: string, b: string, c: string)
    requires Less(a, b) && Less(b, c)
    ensures Less(a, c)
  {
    if a != [] && a[0] == b[0] == c[0] {
      LessTransitive(a[1..], b[1..], c[1..]);
    }
  }

  /** `strcmp` decides: exactly one of less, equal, greater. */
  lemma LessTotal(a: string, b: string)
    ensures Less(a, b) || a == b || Less(b, a)
    ensures !(Less(a, b) && Less(b, a))
    ensures !Less(a, a)
  {
    StrCmpZero(a, b);
    StrCmpZero(a, a);
    StrCmpFlip(a, b);
    StrCmpFlip(b, a);
  }

  /** The first difference decides, and a string comes after its beginnings. */
  lemma {:induction false} FirstDifference(common: string, c: char, d: char, a: string, b: string)
    ensures c != d ==> StrCmp(common + [c] + a, common + [d] + b) == c as int - d as int
    ensures StrCmp(common, common + [d] + b) == -1 && StrCmp(common + [c] + a, common) == 1
  {
    if common != [] {
      var rest := common[1..];
      assert (common + [c] + a)[1..] == rest + [c] + a && (common + [d] + b)[1..] == rest + [d] + b;
      FirstDifference(rest, c, d, a, b);
    } else {
      assert common + [c] + a == [c] + a && common + [d] + b == [d] + b;
    }
  }
}
