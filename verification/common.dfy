/** Values shared by every module of the model: bytes, the failure wrappers,
    the errors the JavaScript code throws, and JavaScript argument values
    as far as the guards `if (!x)` inspect them. */
module Common {

  /** One element of a `Uint8Array`. */
  type byte = b: int | 0 <= b < 256

  datatype Option<+T> = None | Some(value: T)

  datatype Result<+T, +E> = Ok(value: T) | Err(error: E)

  /** The exceptions thrown along the modelled paths. Where the source throws an
      `Error` with a fixed message the constructor says which one. */
  datatype Error =
    | MissingParameters          // 'Missing parameters' (shareFileKey.js)
    | OpenFailed                 // thrown inside crypto_box_seal_open: 'incorrect key pair for the given ciphertext'
    | NonceMissing               // 'nonce cannot be null or undefined' (fileEncryption.js)
    | PasswordRequired           // 'Password is required' (keyDerivation.js)
    | NoAccess                   // 'No access to this shared file' (Dashboard.jsx)
    | ShareExpired               // 'Share expired' (Dashboard.jsx)
    | InvalidBase64              // atob's InvalidCharacterError / from_base64's 'invalid input'
    | InvalidCharacter           // btoa's InvalidCharacterError (a code point above 0xFF)
    | InvalidLength              // libsodium or WebCrypto refusing a key or salt of the wrong size
    | AuthenticationFailure      // AES-GCM tag mismatch (WebCrypto OperationError)
    | StorageError               // a blob missing from the storage bucket
    | RowMissing                 // a `.single()` select that found no row

  /** A JavaScript argument as the guards see it: `undefined`/`null`, a string,
      or any object (an object is always truthy). */
  datatype JsValue = Nullish | Str(s: string) | Object

  /** `String(v)`, what `atob` and the base64 decoders read when given `v`. */
  function AsString(v: JsValue): string {
    match v
    case Nullish => "undefined"
    case Str(s) => s
    case Object => "[object Object]"
  }

  /** JavaScript truthiness restricted to these values: `!x` holds for
      `undefined`, `null` and the empty string. */
  predicate Truthy(v: JsValue) {
    match v
    case Nullish => false
    case Str(s) => s != ""
    case Object => true
  }

  /** The elements `keep` accepts, in order: a `.select().eq(…)` on a table or an
      `Array.prototype.filter`. */
  function Where<T(!new)>(rows: seq<T>, keep: T -> bool): (out: seq<T>)
    ensures |out| <= |rows|
    ensures forall r :: r in out <==> r in rows && keep(r)
  {
    if rows == [] then []
    else (if keep(rows[0]) then [rows[0]] else []) + Where(rows[1..], keep)
  }

  /** Three filters that accept each element exactly once split the elements between
      them. */
  lemma {:induction false} WhereSplit3<T(!new)>(rows: seq<T>, a: T -> bool, b: T -> bool, c: T -> bool)
    requires forall r :: r in rows ==>
      (a(r) && !b(r) && !c(r)) || (!a(r) && b(r) && !c(r)) || (!a(r) && !b(r) && c(r))
    ensures multiset(rows) == multiset(Where(rows, a)) + multiset(Where(rows, b)) + multiset(Where(rows, c))
  {
    if rows != [] {
      var x, rest := rows[0], rows[1..];
      assert rows == [x] + rest && x in rows;
      WhereSplit3(rest, a, b, c);
      WhereCons(x, rest, a);
      WhereCons(x, rest, b);
      WhereCons(x, rest, c);
      Split3Step(x, multiset(rest), multiset(Where(rest, a)), multiset(Where(rest, b)), multiset(Where(rest, c)),
        multiset(Where(rows, a)), multiset(Where(rows, b)), multiset(Where(rows, c)), a(x), b(x), c(x));
    }
  }

  /** One step of a filter. */
  lemma WhereCons<T(!new)>(x: T, rest: seq<T>, keep: T -> bool)
    ensures multiset(Where([x] + rest, keep)) ==
      (if keep(x) then multiset{x} else multiset{}) + multiset(Where(rest, keep))
  {
    assert ([x] + rest)[1..] == rest;
  }

  /** Adding an element to a three-way split adds it to the one part that takes it. */
  lemma Split3Step<T>(x: T, m: multiset<T>, p: multiset<T>, q: multiset<T>, r: multiset<T>,
                      p1: multiset<T>, q1: multiset<T>, r1: multiset<T>, inP: bool, inQ: bool, inR: bool)
    requires m == p + q + r
    requires (inP && !inQ && !inR) || (!inP && inQ && !inR) || (!inP && !inQ && inR)
    requires p1 == (if inP then multiset{x} else multiset{}) + p
    requires q1 == (if inQ then multiset{x} else multiset{}) + q
    requires r1 == (if inR then multiset{x} else multiset{}) + r
    ensures multiset{x} + m == p1 + q1 + r1
  {
  }

  /** Every position moved one to the right. */
  function Shift(t: seq<nat>): (r: seq<nat>)
    ensures |r| == |t| && forall k :: 0 <= k < |t| ==> r[k] == t[k] + 1
  {
    if t == [] then [] else [t[0] + 1] + Shift(t[1..])
  }

  /** The positions of the elements a filter keeps, in order. */
  function Positions<T(!new)>(rows: seq<T>, keep: T -> bool): (p: seq<nat>)
    ensures |p| == |Where(rows, keep)|
  {
    if rows == [] then []
    else (if keep(rows[0]) then [0] else []) + Shift(Positions(rows[1..], keep))
  }

  /** The filtered sequence reads the input at those positions. */
  lemma {:induction false} PositionsRead<T(!new)>(rows: seq<T>, keep: T -> bool)
    ensures forall k :: 0 <= k < |Positions(rows, keep)| ==>
      Positions(rows, keep)[k] < |rows| && Where(rows, keep)[k] == rows[Positions(rows, keep)[k]]
  {
    if rows != [] {
      var tail := rows[1..];
      PositionsRead(tail, keep);
      var t, w := Positions(tail, keep), Where(tail, keep);
      var s := Shift(t);
      forall k | 0 <= k < |t| ensures s[k] < |rows| && w[k] == rows[s[k]] {
        assert tail[t[k]] == rows[t[k] + 1];
      }
      if keep(rows[0]) {
        var p, out := Positions(rows, keep), Where(rows, keep);
        assert p == [0] + s && out == [rows[0]] + w;
        forall k | 0 <= k < |p| ensures p[k] < |rows| && out[k] == rows[p[k]] {
          if k > 0 {
            assert p[k] == s[k - 1] && out[k] == w[k - 1];
          }
        }
      } else {
        assert Positions(rows, keep) == s && Where(rows, keep) == w;
      }
    }
  }

  /** The positions are strictly increasing. */
  lemma {:induction false} PositionsIncrease<T(!new)>(rows: seq<T>, keep: T -> bool)
    ensures forall k, l :: 0 <= k < l < |Positions(rows, keep)| ==>
      Positions(rows, keep)[k] < Positions(rows, keep)[l]
  {
    if rows != [] {
      PositionsIncrease(rows[1..], keep);
      var s := Shift(Positions(rows[1..], keep));
      var p := Positions(rows, keep);
      if keep(rows[0]) {
        assert p == [0] + s;
        forall k, l | 0 <= k < l < |p| ensures p[k] < p[l] {
          assert p[l] == s[l - 1];
          if k > 0 {
            assert p[k] == s[k - 1];
          }
        }
      } else {
        assert p == s;
      }
    }
  }

  /** Nothing accepted, nothing selected. */
  lemma {:induction false} WhereNone<T(!new)>(rows: seq<T>, keep: T -> bool)
    requires forall r :: r in rows ==> !keep(r)
    ensures Where(rows, keep) == []
  {
    if rows != [] {
      WhereNone(rows[1..], keep);
    }
  }
}
