/** The per-user model lookup: one model, and one collection, per username. */
module Registry {

  /** Which fields of an image entry the schema marks `required`. */
  datatype Schema = Schema(frontRequired: bool, backRequired: bool, oneImageRequired: bool)

  /**
   * The schema `getUserImageModel` builds: both image paths, the date and the time are all
   * `required: true`.
   */
  const UserImageSchema: Schema := Schema(true, true, false)

  /** The schema the upload route evidently needs: either image may be missing, not both. */
  const IntendedSchema: Schema := Schema(false, false, true)

  /**
   * A registered model: the name it is registered under, the collection it stores into,
   * its schema, and a serial number that stands for its identity as an object.
   */
  datatype UserModel = UserModel(name: string, collection: string, schema: Schema, serial: nat)

  /**
   * The registry after a get-or-create for `username`: unchanged when the name is already
   * registered, otherwise extended by one fresh model under that name.
   */
  function Registered(models: map<string, UserModel>, next: nat, schema: Schema, username: string)
    : (m: map<string, UserModel>)
    ensures m.Keys == models.Keys + {username}
    ensures forall u :: u in models ==> m[u] == models[u]
    ensures username !in models ==> m[username] == UserModel(username, username, schema, next)
  {
    if username in models then models
    else models[username := UserModel(username, username, schema, next)]
  }

  /**
   * Every model is registered under its own name, stores into the collection of that name,
   * uses the registry's schema and has a serial below the next one; no two share a serial.
   */
  ghost predicate RegistryValid(models: map<string, UserModel>, next: nat, schema: Schema) {
    && (forall u :: u in models ==>
          models[u].name == u && models[u].collection == u
          && models[u].schema == schema && models[u].serial < next)
    && (forall u, v :: u in models && v in models && u != v ==> models[u].serial != models[v].serial)
  }

  /** A get-or-create keeps the registry valid, spending a serial only when it creates. */
  lemma RegisteredKeepsValid(models: map<string, UserModel>, next: nat, schema: Schema, username: string)
    requires RegistryValid(models, next, schema)
    ensures RegistryValid(Registered(models, next, schema, username),
                          if username in models then next else next + 1, schema)
  {
  }

  /** Asking again for the same name returns the same model and changes nothing. */
  lemma RegisteredIdempotent(models: map<string, UserModel>, next: nat, next': nat,
                             schema: Schema, username: string)
    ensures var m := Registered(models, next, schema, username);
            Registered(m, next', schema, username) == m
  {
  }

  /** No two users share a collection or a model. */
  lemma DistinctUsersDistinctModels(models: map<string, UserModel>, next: nat, schema: Schema,
                                    u: string, v: string)
    requires RegistryValid(models, next, schema)
    requires u in models && v in models && u != v
    ensures models[u].collection != models[v].collection && models[u] != models[v]
  {
  }

  /** The connection's model table, `mongoose.connection.models`. */
  class ModelRegistry {
    /** The schema this registry gives to the models it creates. */
    const schema: Schema
    var models: map<string, UserModel>
    /** How many models have been created: the serial of the next one. */
    var created: nat

    ghost predicate Valid()
      reads this
    {
      RegistryValid(models, created, schema)
    }

    constructor (schema: Schema)
      ensures Valid() && this.schema == schema && models == map[] && created == 0
    {
      this.schema := schema;
      models := map[];
      created := 0;
    }

    /** `getUserImageModel(username)`. */
    method GetUserImageModel(username: string) returns (model: UserModel)
      requires Valid()
      modifies this
      ensures Valid()
      ensures models == Registered(old(models), old(created), schema, username)
      ensures model == models[username]
      ensures username in old(models) ==> model == old(models)[username] && created == old(created)
      ensures username !in old(models) ==> created == old(created) + 1
    {
      if username in models {
        return models[username];
      }
      model := UserModel(username, username, schema, created);
      models := models[username := model];
      created := created + 1;
    }
  }
}
