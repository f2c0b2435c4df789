/**
 * The dropped image files and the two pure operations over the component's file
 * list: removing one file (`filter(f => f !== file)`) and the total size
 * (`reduce((total, file) => total + file.size, 0)`).
 */
module Files {

  /**
   * The `status` property a dropped file is given. A browser file has none until
   * intake assigns 'queued'; nothing ever assigns another value.
   */
  datatype Status = NoStatus | Queued

  /**
   * A browser file object. Its name and size are fixed; intake decorates the
   * object itself with a status, and removal compares objects by identity, so a
   * file is a Dafny object and two files are the same entry only when they are
   * the same object.
   */
  class File {
    const name: string
    const size: nat
    var status: Status

    constructor (name: string, size: nat)
      ensures this.name == name && this.size == size && status == NoStatus
    {
      this.name := name;
      this.size := size;
      status := NoStatus;
    }
  }

  /** The names of `files`, in order. */
  function Names(files: seq<File>): seq<string>
  {
    seq(|files|, i requires 0 <= i < |files| => files[i].name)
  }

  /** `files` without every entry that is the object `file`, the others kept in order. */
  function Without(files: seq<File>, file: File): (rest: seq<File>)
    ensures file !in rest
    ensures forall i :: 0 <= i < |rest| ==> rest[i] in files
  {
    if files == [] then []
    else
      assert files == [files[0]] + files[1..];
      (if files[0] != file then [files[0]] else []) + Without(files[1..], file)
  }

  /** Removal takes out every occurrence of the file and changes the count of no other. */
  lemma {:induction false} WithoutMultiset(files: seq<File>, file: File)
    ensures multiset(Without(files, file)) == multiset(files)[file := 0]
    ensures |Without(files, file)| == |files| - multiset(files)[file]
  {
    if files != [] {
      assert files == [files[0]] + files[1..];
      WithoutMultiset(files[1..], file);
    }
  }

  /** Removal works entry by entry, so it keeps the order of what it keeps. */
  lemma {:induction false} WithoutConcat(a: seq<File>, b: seq<File>, file: File)
    ensures Without(a + b, file) == Without(a, file) + Without(b, file)
  {
    if a == [] {
      assert a + b == b;
    } else {
      var ab := a + b;
      assert ab[0] == a[0] && ab[1..] == a[1..] + b;
      var kept: seq<File> := if a[0] != file then [a[0]] else [];
      WithoutConcat(a[1..], b, file);
      calc {
        Without(ab, file);
        kept + Without(a[1..] + b, file);
        kept + (Without(a[1..], file) + Without(b, file));
        (kept + Without(a[1..], file)) + Without(b, file);
        Without(a, file) + Without(b, file);
      }
    }
  }

  /** Removing a file that is not in the list leaves the list as it is. */
  lemma {:induction false} WithoutAbsent(files: seq<File>, file: File)
    requires file !in files
    ensures Without(files, file) == files
  {
    if files != [] {
      WithoutAbsent(files[1..], file);
    }
  }

  /** Removing the same file twice is removing it once. */
  lemma WithoutIdempotent(files: seq<File>, file: File)
    ensures Without(Without(files, file), file) == Without(files, file)
  {
    WithoutAbsent(Without(files, file), file);
  }

  /** The sum of the sizes of `files`; no entry is larger than the total. */
  function TotalSize(files: seq<File>): (total: nat)
    ensures forall i :: 0 <= i < |files| ==> files[i].size <= total
  {
    if files == [] then 0 else files[0].size + TotalSize(files[1..])
  }

  /** The total of a concatenation is the sum of the totals. */
  lemma {:induction false} TotalSizeConcat(a: seq<File>, b: seq<File>)
    ensures TotalSize(a + b) == TotalSize(a) + TotalSize(b)
  {
    if a == [] {
      assert a + b == b;
    } else {
      assert (a + b)[1..] == a[1..] + b;
      TotalSizeConcat(a[1..], b);
    }
  }

  lemma MulSucc(m: nat, k: nat)
    ensures (m + 1) * k == m * k + k
  {
  }

  /** Removing a file takes its size off the total once for every time it was listed. */
  lemma {:induction false} TotalSizeWithout(files: seq<File>, file: File)
    ensures TotalSize(Without(files, file)) + multiset(files)[file] * file.size == TotalSize(files)
  {
    if files != [] {
      var head: File, tail: seq<File> := files[0], files[1..];
      assert files == [head] + tail;
      var m := multiset(tail)[file];
      var rest := Without(tail, file);
      TotalSizeWithout(tail, file);
      assert TotalSize(rest) + m * file.size == TotalSize(tail);
      assert TotalSize(files) == head.size + TotalSize(tail);
      if head == file {
        assert Without(files, file) == rest by {
          assert [] + rest == rest;
        }
        assert multiset(files)[file] == m + 1;
        MulSucc(m, file.size);
      } else {
        assert Without(files, file) == [head] + rest;
        assert multiset(files)[file] == m;
        assert TotalSize([head] + rest) == head.size + TotalSize(rest) by {
          assert ([head] + rest)[1..] == rest;
        }
      }
    }
  }
}
