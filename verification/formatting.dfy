/**
 * The controller's text syntax for poses and joint vectors (KUKARemoteController.pose_to_str and
 * joints_to_str). Fixed-point float formatting (`:.4f`, `:.3f`) is a parameter.
 */
module Formatting {
  import opened Text

  /** Labels of the Cartesian fields, in the order pose_to_str zips them with the values. */
  const POSE_LABELS: seq<string> := ["X", "Y", "Z", "A", "B", "C"]

  /** Labels of the joint fields: six robot axes, then six external axes. */
  const JOINT_LABELS: seq<string> :=
    ["A1", "A2", "A3", "A4", "A5", "A6", "E1", "E2", "E3", "E4", "E5", "E6"]

  function Min(a: nat, b: nat): nat {
    if a <= b then a else b
  }

  /** One `"<label> <value>"` field per value, as far as the labels reach. */
  function LabelledFields(labels: seq<string>, fmt: real -> string, values: seq<real>): (r: seq<string>)
    ensures |r| == Min(|values|, |labels|)
  {
    seq(Min(|values|, |labels|), i requires 0 <= i < Min(|values|, |labels|) =>
      labels[i] + " " + fmt(values[i]))
  }

  /** pose_to_str: the `", "`-join of one labelled fixed-point field per value, up to six. */
  function PoseToStr(fmt4: real -> string, xyzrpy: seq<real>): string {
    Join(LabelledFields(POSE_LABELS, fmt4, xyzrpy))
  }

  /**
   * joints_to_str after its first `k` conditional appends: the k-th appends
   * `", "` (except for the first), the k-th label and the k-th value when `|q| >= k`.
   */
  function JointsUpTo(fmt3: real -> string, q: seq<real>, k: nat): string
    requires k <= |JOINT_LABELS|
  {
    if k == 0 then ""
    else
      JointsUpTo(fmt3, q, k - 1)
      + if |q| >= k then (if k == 1 then "" else SEP) + JOINT_LABELS[k - 1] + " " + fmt3(q[k - 1])
        else ""
  }

  /** joints_to_str: all twelve conditional appends. */
  function JointsToStr(fmt3: real -> string, q: seq<real>): string {
    JointsUpTo(fmt3, q, |JOINT_LABELS|)
  }

  /** The first `k` appends build the join of the first `min(|q|, k)` labelled fields. */
  lemma {:induction false} JointsUpToIsJoin(fmt3: real -> string, q: seq<real>, k: nat)
    requires k <= |JOINT_LABELS|
    ensures JointsUpTo(fmt3, q, k) == Join(LabelledFields(JOINT_LABELS[..k], fmt3, q))
  {
    if k > 0 {
      JointsUpToIsJoin(fmt3, q, k - 1);
      var prev := LabelledFields(JOINT_LABELS[..k - 1], fmt3, q);
      var cur := LabelledFields(JOINT_LABELS[..k], fmt3, q);
      if |q| >= k {
        assert cur == prev + [JOINT_LABELS[k - 1] + " " + fmt3(q[k - 1])];
        if k > 1 {
          JoinSnoc(prev, JOINT_LABELS[k - 1] + " " + fmt3(q[k - 1]));
        }
      } else {
        assert cur == prev;
      }
    }
  }

  /** The chain of twelve appends is the `", "`-join of the labelled joint fields. */
  lemma JointsToStrIsJoin(fmt3: real -> string, q: seq<real>)
    ensures JointsToStr(fmt3, q) == Join(LabelledFields(JOINT_LABELS, fmt3, q))
  {
    JointsUpToIsJoin(fmt3, q, |JOINT_LABELS|);
    assert JOINT_LABELS[..|JOINT_LABELS|] == JOINT_LABELS;
  }

  /** No fixed-point rendering of a number contains a comma. */
  ghost predicate CommaFreeFormat(fmt: real -> string) {
    forall x :: CommaFree(fmt(x))
  }

  lemma LabelledFieldsCommaFree(labels: seq<string>, fmt: real -> string, values: seq<real>)
    requires forall i | 0 <= i < |labels| :: CommaFree(labels[i])
    requires CommaFreeFormat(fmt)
    ensures forall i | 0 <= i < |LabelledFields(labels, fmt, values)| ::
      CommaFree(LabelledFields(labels, fmt, values)[i])
  {
    var fs := LabelledFields(labels, fmt, values);
    forall i | 0 <= i < |fs| ensures CommaFree(fs[i]) {
      var f := fs[i];
      assert f == labels[i] + " " + fmt(values[i]);
      var x := values[i];
      assert CommaFree(fmt(x));
      forall j | 0 <= j < |f| ensures f[j] != ',' {
        if j < |labels[i]| {
          assert f[j] == labels[i][j];
        } else if j > |labels[i]| {
          assert f[j] == fmt(values[i])[j - |labels[i]| - 1];
        }
      }
    }
  }

  /**
   * joints_to_str emits `min(|q|, 12)` fields, the i-th being the i-th label followed by the
   * i-th value; splitting the text at `", "` recovers them.
   */
  lemma JointsToStrFields(fmt3: real -> string, q: seq<real>)
    requires CommaFreeFormat(fmt3)
    ensures |SplitFields(JointsToStr(fmt3, q))| == Min(|q|, 12)
    ensures forall i | 0 <= i < Min(|q|, 12) ::
      SplitFields(JointsToStr(fmt3, q))[i] == JOINT_LABELS[i] + " " + fmt3(q[i])
  {
    JointsToStrIsJoin(fmt3, q);
    var fs := LabelledFields(JOINT_LABELS, fmt3, q);
    if |fs| > 0 {
      LabelledFieldsCommaFree(JOINT_LABELS, fmt3, q);
      SplitJoin(fs);
      assert |fs[0]| > 0;
      assert Join(fs) != "" by { JoinNonEmpty(fs); }
    }
  }

  /** pose_to_str emits `min(|xyzrpy|, 6)` fields labelled X, Y, Z, A, B, C in that order. */
  lemma PoseToStrFields(fmt4: real -> string, xyzrpy: seq<real>)
    requires CommaFreeFormat(fmt4)
    ensures |SplitFields(PoseToStr(fmt4, xyzrpy))| == Min(|xyzrpy|, 6)
    ensures forall i | 0 <= i < Min(|xyzrpy|, 6) ::
      SplitFields(PoseToStr(fmt4, xyzrpy))[i] == POSE_LABELS[i] + " " + fmt4(xyzrpy[i])
  {
    var fs := LabelledFields(POSE_LABELS, fmt4, xyzrpy);
    if |fs| > 0 {
      LabelledFieldsCommaFree(POSE_LABELS, fmt4, xyzrpy);
      SplitJoin(fs);
      assert |fs[0]| > 0;
      assert Join(fs) != "" by { JoinNonEmpty(fs); }
    }
  }

  /** The join starts with the first field, so it is empty only if that field is. */
  lemma JoinNonEmpty(fs: seq<string>)
    requires |fs| >= 1 && |fs[0]| > 0
    ensures |Join(fs)| >= |fs[0]|
  {
  }
}
