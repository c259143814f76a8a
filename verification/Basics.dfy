/** Small vocabulary shared by the models. */
module Basics {

  datatype Option<T> = None | Some(value: T)

  type Byte = b: int | 0 <= b < 256

  // The 32-bit signed integer with the same lower bits
  function Int32(x: int): (y: int)
    ensures -0x8000_0000 <= x < 0x8000_0000 ==> y == x
    ensures 0x8000_0000 <= x < 0x1_0000_0000 ==> y == x - 0x1_0000_0000
  {
    (x + 0x8000_0000) % 0x1_0000_0000 - 0x8000_0000
  }

  lemma Int32Shortfall(x: nat) returns (k: nat)
    ensures x == Int32(x) + 0x1_0000_0000 * k && 0x8000_0000 * k <= x && (k == 0 <==> x < 0x8000_0000)
  {
    k := (x + 0x8000_0000) / 0x1_0000_0000;
  }

  ghost predicate NoDuplicates<T>(s: seq<T>) {
    forall i, j | 0 <= i < j < |s| :: s[i] != s[j]
  }

  predicate At(text: string, part: string, i: nat) {
    i + |part| <= |text| && text[i..i + |part|] == part
  }

  // strpos($text, $part) !== false
  predicate Contains(text: string, part: string) {
    exists i | 0 <= i <= |text| :: At(text, part, i)
  }

  function Concat<T>(parts: seq<seq<T>>): seq<T> {
    if parts == [] then [] else Concat(parts[..|parts| - 1]) + parts[|parts| - 1]
  }

  lemma {:induction false} ConcatAppend<T>(a: seq<seq<T>>, b: seq<seq<T>>)
    ensures Concat(a + b) == Concat(a) + Concat(b)
  {
    if b == [] {
      assert a + b == a;
    } else {
      ConcatAppend(a, b[..|b| - 1]);
      assert (a + b)[..|a + b| - 1] == a + b[..|b| - 1];
    }
  }
}
