/** Value types shared by every part of the model. */
module Base {

  datatype Option<+T> = None | Some(value: T)

  /** Rust's `Result`: the service's fallible operations return one of these. */
  datatype Result<+T, +E> = Ok(value: T) | Err(error: E)

  newtype byte = x: int | 0 <= x < 256

  /** Rust's `u64`, the type of a file length. */
  type u64 = x: int | 0 <= x < 0x1_0000_0000_0000_0000

  /** `io::ErrorKind`, as far as the service's status codes tell kinds apart: the kinds tonic
      maps to a code of their own, `Other`, which the service gives its own command failures,
      and `Remaining` for every other kind. */
  datatype ErrorKind =
    | NotFound | PermissionDenied | ConnectionRefused | ConnectionReset | NotConnected
    | AddrInUse | AddrNotAvailable | ConnectionAborted | BrokenPipe | AlreadyExists
    | WouldBlock | InvalidInput | InvalidData | TimedOut | WriteZero | Interrupted
    | UnexpectedEof | Other | Remaining

  /** An `io::Error` as the service sees it: its kind and its display text. */
  datatype IoError = IoError(kind: ErrorKind, message: string)

  predicate Distinct<T(==)>(s: seq<T>) {
    forall i, j :: 0 <= i < j < |s| ==> s[i] != s[j]
  }

  lemma DistinctAppend<T>(a: seq<T>, b: seq<T>)
    requires Distinct(a) && Distinct(b)
    requires forall x :: x in a ==> x !in b
    ensures Distinct(a + b)
  {
    forall i, j | 0 <= i < j < |a + b|
      ensures (a + b)[i] != (a + b)[j]
    {
      if i < |a| && |a| <= j {
        assert (a + b)[i] in a && (a + b)[j] in b;
      }
    }
  }

  lemma SliceOfLeft<T>(a: seq<T>, b: seq<T>, lo: nat, hi: nat)
    requires lo <= hi <= |a|
    ensures (a + b)[lo..hi] == a[lo..hi]
  {
  }

  lemma DropLeft<T>(a: seq<T>, b: seq<T>, lo: nat)
    requires |a| <= lo <= |a| + |b|
    ensures (a + b)[lo..] == b[lo - |a|..]
  {
  }

  /** `(x + y) + t == x + (y + t)`, stated over names for the parts. */
  lemma Regroup<T>(whole: seq<T>, left: seq<T>, x: seq<T>, y: seq<T>, t: seq<T>, yt: seq<T>)
    requires whole == left + t && left == x + y && yt == y + t
    ensures whole == x + yt
  {
  }

  lemma InPrefix<T>(s: seq<T>, k: nat, x: T)
    requires k <= |s| && x in s[..k]
    ensures x in s
  {
  }
}
