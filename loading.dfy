/**
 * The application-wide loading indicator: a flag set by whichever store is fetching, and a
 * lock that forces the indicator on regardless of that flag.
 */
module Loading {

  class LoadingStore {
    /** Set by `SetLoading`: some store is running a request. */
    var loadingFlag: bool
    /** Set by `LockLoading`, cleared by `UnlockLoading`. */
    var lockFlag: bool

    /** The indicator shown to the user: on while locked or while a request runs. */
    predicate Loading()
      reads this
    {
      lockFlag || loadingFlag
    }

    constructor()
      ensures !loadingFlag && !lockFlag
      ensures !Loading()
    {
      loadingFlag := false;
      lockFlag := false;
    }

    method SetLoading(loading: bool)
      modifies this
      ensures loadingFlag == loading && lockFlag == old(lockFlag)
      ensures Loading() == (old(lockFlag) || loading)
      ensures old(lockFlag) ==> Loading()
    {
      loadingFlag := loading;
    }

    method LockLoading()
      modifies this
      ensures lockFlag && loadingFlag == old(loadingFlag)
      ensures Loading()
    {
      lockFlag := true;
    }

    /** Unlocking hands the indicator back to the loading flag, whatever happened while locked. */
    method UnlockLoading()
      modifies this
      ensures !lockFlag && loadingFlag == old(loadingFlag)
      ensures Loading() == loadingFlag
    {
      lockFlag := false;
    }
  }
}
