/** The points ledger as the launcher updates it: USER_PROFILE_MAP, POINT_HISTORY_MAP and the
    point counter are changed in place. A method that returns false stands for a panic,
    which undoes its message. */
module PointsLedger {
  import opened Checked
  import opened Principals
  import PointsSpec

  class Launcher {
    var userProfiles: map<Principal, PointsSpec.Profile>
    var pointHistory: map<nat, PointsSpec.PointHistory>
    var pointCount: nat

    function State(): PointsSpec.Points
      reads this
    {
      PointsSpec.Points(userProfiles, pointHistory, pointCount)
    }

    constructor ()
      ensures State() == PointsSpec.EMPTY
    {
      userProfiles, pointHistory, pointCount := map[], map[], 0;
    }

    method CountPoint() returns (idx: nat)
      modifies this`pointCount
      ensures idx == pointCount == old(pointCount) + 1
      ensures State() == PointsSpec.Apply(old(State()), PointsSpec.CountPoint)
    {
      pointCount := pointCount + 1;
      return pointCount;
    }

    method LogPoint(user: Principal, opType: PointsSpec.OpType, busiName: string, amount: nat)
      modifies this`pointHistory, this`pointCount
      ensures State() == PointsSpec.Log(old(State()), user, opType, busiName, amount)
    {
      var idx := CountPoint();
      pointHistory := pointHistory[idx := PointsSpec.PointHistory(idx, user, opType, busiName, amount)];
    }

    method InitPoints(user: Principal) returns (ok: bool)
      modifies this
      ensures ok == PointsSpec.Runs(old(State()), PointsSpec.InitPoints(user))
      ensures State() == PointsSpec.Apply(old(State()), PointsSpec.InitPoints(user))
    {
      if user !in userProfiles { return false; }
      var profile := userProfiles[user];
      if profile.points == None {
        profile := profile.(points := Some(20 + profile.preReward.GetOr(0)));
      }
      userProfiles := userProfiles[user := profile];
      LogPoint(user, PointsSpec.INIT, "INIT", 20);
      return true;
    }

    method AddPoints(amount: nat, user: Principal, busiName: string) returns (ok: bool)
      modifies this
      ensures ok == PointsSpec.Runs(old(State()), PointsSpec.AddPoints(user, amount, busiName))
      ensures State() == PointsSpec.Apply(old(State()), PointsSpec.AddPoints(user, amount, busiName))
    {
      if user !in userProfiles { return false; }
      var profile := userProfiles[user];
      match profile.points {
        case Some(n) => profile := profile.(points := Some(n + amount));
        case None =>
          match profile.preReward {
            case Some(reward) => profile := profile.(preReward := Some(reward + amount));
            case None => profile := profile.(preReward := Some(amount));
          }
      }
      userProfiles := userProfiles[user := profile];
      LogPoint(user, PointsSpec.ADD, busiName, amount);
      return true;
    }

    method DeductPoints(amount: nat, user: Principal, busiName: string) returns (ok: bool)
      modifies this
      ensures ok == PointsSpec.Runs(old(State()), PointsSpec.DeductPoints(user, amount, busiName))
      ensures State() == PointsSpec.Apply(old(State()), PointsSpec.DeductPoints(user, amount, busiName))
    {
      if user !in userProfiles { return false; }
      var profile := userProfiles[user];
      if profile.points == None || profile.points.value < amount { return false; }
      if profile.allSpend == None {
        profile := profile.(allSpend := Some(0));
      }
      profile := profile.(points := Some(profile.points.value - amount));
      profile := profile.(allSpend := Some(profile.allSpend.value + amount));
      userProfiles := userProfiles[user := profile];
      LogPoint(user, PointsSpec.DEDUCT, busiName, amount);
      return true;
    }

    /** authorised: the caller is the launcher itself or a known project canister. */
    method SpendingPoints(authorised: bool, user: Principal, busiName: string) returns (ok: bool)
      modifies this
      ensures ok == PointsSpec.Runs(old(State()), PointsSpec.SpendingPoints(authorised, user, busiName))
      ensures State() == PointsSpec.Apply(old(State()), PointsSpec.SpendingPoints(authorised, user, busiName))
    {
      if !authorised { return false; }
      var amount;
      if busiName == "COMMENT" {
        amount := 6;
      } else if busiName == "IMAGE_COMMENT" {
        amount := 6;
      } else if busiName == "EDIT_AVATAR" {
        amount := 8;
      } else {
        return false;
      }
      ok := DeductPoints(amount, user, busiName);
    }

    /** The last segment of topup_points and of create_fomo. */
    method InitThenAdd(user: Principal, amount: nat, busiName: string) returns (ok: bool)
      modifies this
      ensures ok == PointsSpec.Runs(old(State()), PointsSpec.InitThenAdd(user, amount, busiName))
      ensures State() == PointsSpec.Apply(old(State()), PointsSpec.InitThenAdd(user, amount, busiName))
    {
      ok := InitPoints(user);
      if ok {
        ok := AddPoints(amount, user, busiName);
      }
    }

    /** edit_user up to its first await: returns false when the caller is anonymous. */
    method EditOpen(caller: Principal) returns (ok: bool)
      modifies this
      ensures ok == PointsSpec.Runs(old(State()), PointsSpec.EditOpen(caller))
      ensures State() == PointsSpec.Apply(old(State()), PointsSpec.EditOpen(caller))
    {
      if caller == Anonymous { return false; }
      if caller in userProfiles {
        var profile := userProfiles[caller];
        if profile.points == None && profile.allSpend == None {
          profile := profile.(allSpend := Some(0));
        }
        userProfiles := userProfiles[caller := profile];
      }
      return true;
    }

    /** edit_user after its last await: creates the profile, or fills in what is missing. */
    method EditClose(caller: Principal) returns (ok: bool)
      modifies this
      ensures ok == PointsSpec.Runs(old(State()), PointsSpec.EditClose(caller))
      ensures State() == PointsSpec.Apply(old(State()), PointsSpec.EditClose(caller))
    {
      if caller == Anonymous { return false; }
      if caller !in userProfiles {
        userProfiles := userProfiles[caller := PointsSpec.Profile(None, Some(0), Some(0))];
      } else {
        var profile := userProfiles[caller];
        if profile.points == None {
          profile := profile.(allSpend := Some(0));
        }
        if profile.allSpend == None {
          profile := profile.(allSpend := Some(0));
        }
        if profile.preReward == None {
          profile := profile.(preReward := Some(0));
        }
        userProfiles := userProfiles[caller := profile];
      }
      return true;
    }
  }
}
